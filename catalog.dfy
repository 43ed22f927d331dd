/**
 * SVDDevicesHelper: the ordered list of loaded devices and the name lookups
 * and completion over it. The queries are functions of the device list; the
 * list itself is the field of DevicesHelper that Load replaces.
 */
module Catalog {
  import opened Wrappers
  import opened Text
  import opened Tree

  /** Every peripheral of every device, devices in load order. */
  function AllPeripherals(devices: seq<Device>): seq<Peripheral> {
    if devices == [] then [] else devices[0].peripherals + AllPeripherals(devices[1..])
  }

  function PeripheralNames(ps: seq<Peripheral>): (names: seq<string>)
    ensures |names| == |ps| && forall i :: 0 <= i < |ps| ==> names[i] == ps[i].name
  {
    if ps == [] then [] else [ps[0].name] + PeripheralNames(ps[1..])
  }

  function RegisterNames(rs: seq<Register>): (names: seq<string>)
    ensures |names| == |rs| && forall i :: 0 <= i < |rs| ==> names[i] == rs[i].name
  {
    if rs == [] then [] else [rs[0].name] + RegisterNames(rs[1..])
  }

  lemma PeripheralNamesConcat(a: seq<Peripheral>, b: seq<Peripheral>)
    ensures PeripheralNames(a + b) == PeripheralNames(a) + PeripheralNames(b)
  {
  }

  /** `devices_name`: the device names in load order. */
  function DevicesName(devices: seq<Device>): (names: seq<string>)
    ensures |names| == |devices|
    ensures forall i :: 0 <= i < |devices| ==> names[i] == devices[i].name
  {
    if devices == [] then [] else [devices[0].name] + DevicesName(devices[1..])
  }

  /** `i` is the first position in `ps` of a peripheral called `name`. */
  predicate FirstPeripheral(ps: seq<Peripheral>, i: int, name: string) {
    0 <= i < |ps| && ps[i].name == name && forall j :: 0 <= j < i ==> ps[j].name != name
  }

  /** `i` is the first position in `rs` of a register called `name`. */
  predicate FirstRegister(rs: seq<Register>, i: int, name: string) {
    0 <= i < |rs| && rs[i].name == name && forall j :: 0 <= j < i ==> rs[j].name != name
  }

  /** The inner loop of `get_peripheral`: the peripherals of one device. */
  function FindPeripheral(ps: seq<Peripheral>, name: string): (r: Option<Peripheral>)
    ensures r.None? <==> forall j :: 0 <= j < |ps| ==> ps[j].name != name
    ensures r.Some? ==> exists i :: FirstPeripheral(ps, i, name) && ps[i] == r.value
  {
    if ps == [] then None
    else if ps[0].name == name then
      assert FirstPeripheral(ps, 0, name);
      Some(ps[0])
    else
      var r := FindPeripheral(ps[1..], name);
      assert forall i :: FirstPeripheral(ps[1..], i, name) ==> FirstPeripheral(ps, i + 1, name);
      r
  }

  /**
   * `get_peripheral`: the first peripheral called exactly `name`, devices
   * searched in load order and the peripherals of each in order; None when
   * no peripheral has that name.
   */
  function GetPeripheral(devices: seq<Device>, name: string): (r: Option<Peripheral>)
    ensures var all := AllPeripherals(devices);
      r.None? <==> forall j :: 0 <= j < |all| ==> all[j].name != name
    ensures var all := AllPeripherals(devices);
      r.Some? ==> exists i :: FirstPeripheral(all, i, name) && all[i] == r.value
  {
    if devices == [] then None
    else
      var here := devices[0].peripherals;
      var rest := devices[1..];
      assert AllPeripherals(devices) == here + AllPeripherals(rest);
      match FindPeripheral(here, name)
      case Some(p) =>
        FirstInFront(here, AllPeripherals(rest), name, p);
        Some(p)
      case None =>
        var r := GetPeripheral(rest, name);
        FirstBehind(here, AllPeripherals(rest), name, r);
        r
  }

  /** A first match in `a` is a first match in `a + b`. */
  lemma FirstInFront(a: seq<Peripheral>, b: seq<Peripheral>, name: string, p: Peripheral)
    requires exists i :: FirstPeripheral(a, i, name) && a[i] == p
    ensures exists i :: FirstPeripheral(a + b, i, name) && (a + b)[i] == p
  {
    var i :| FirstPeripheral(a, i, name) && a[i] == p;
    assert FirstPeripheral(a + b, i, name);
  }

  /** With no match in `a`, the matches of `a + b` are those of `b`, shifted. */
  lemma FirstBehind(a: seq<Peripheral>, b: seq<Peripheral>, name: string, r: Option<Peripheral>)
    requires forall j :: 0 <= j < |a| ==> a[j].name != name
    requires r.None? <==> forall j :: 0 <= j < |b| ==> b[j].name != name
    requires r.Some? ==> exists i :: FirstPeripheral(b, i, name) && b[i] == r.value
    ensures r.None? <==> forall j :: 0 <= j < |a + b| ==> (a + b)[j].name != name
    ensures r.Some? ==> exists i :: FirstPeripheral(a + b, i, name) && (a + b)[i] == r.value
  {
    if r.Some? {
      var i :| FirstPeripheral(b, i, name) && b[i] == r.value;
      assert FirstPeripheral(a + b, |a| + i, name);
    } else {
      assert forall j :: |a| <= j < |a + b| ==> (a + b)[j] == b[j - |a|];
    }
  }

  /** The loop of `get_register` over a list of registers. */
  function FindRegister(rs: seq<Register>, name: string): (r: Option<Register>)
    ensures r.None? <==> forall j :: 0 <= j < |rs| ==> rs[j].name != name
    ensures r.Some? ==> exists i :: FirstRegister(rs, i, name) && rs[i] == r.value
  {
    if rs == [] then None
    else if rs[0].name == name then
      assert FirstRegister(rs, 0, name);
      Some(rs[0])
    else
      var r := FindRegister(rs[1..], name);
      assert forall i :: FirstRegister(rs[1..], i, name) ==> FirstRegister(rs, i + 1, name);
      r
  }

  /** `get_register`: the first register of `p` called exactly `name`, else None. */
  function GetRegister(p: Peripheral, name: string): (r: Option<Register>)
    ensures r.None? <==> forall j :: 0 <= j < |p.registers| ==> p.registers[j].name != name
    ensures r.Some? ==> exists i :: FirstRegister(p.registers, i, name) && p.registers[i] == r.value
  {
    FindRegister(p.registers, name)
  }

  /**
   * What `complete` returns: candidate names, `gdb.COMPLETE_NONE` for more
   * than two words, or the AttributeError raised when the first word names
   * no peripheral (`None` has no `.registers`).
   */
  datatype Completion = Candidates(names: seq<string>) | CompleteNone | NoSuchPeripheral

  /**
   * `complete(text, word)`: `text` is split at every space. One piece:
   * every peripheral name starting with `word`. Two pieces: the names of the
   * registers of the peripheral named by the first piece that start with
   * `word`. More: no completion.
   */
  function Complete(devices: seq<Device>, text: string, word: string): (c: Completion)
    ensures ' ' !in text ==>
      (c.Candidates? &&
       forall n :: n in c.names <==> n in PeripheralNames(AllPeripherals(devices)) && StartsWith(n, word))
    ensures Count(text, ' ') == 1 ==>
      var p := GetPeripheral(devices, Split(text, ' ')[0]);
      (p.None? ==> c == NoSuchPeripheral) &&
      (p.Some? ==>
        (c.Candidates? &&
         forall n :: n in c.names <==> n in RegisterNames(p.value.registers) && StartsWith(n, word)))
    ensures Count(text, ' ') >= 2 ==> c == CompleteNone
  {
    CountZero(text, ' ');
    var args := Split(text, ' ');
    if |args| == 1 then
      Candidates(PrefixFilter(PeripheralNames(AllPeripherals(devices)), word))
    else if |args| == 2 then
      match GetPeripheral(devices, args[0])
      case None => NoSuchPeripheral
      case Some(p) => Candidates(PrefixFilter(RegisterNames(p.registers), word))
    else
      CompleteNone
  }

  /** The per-device candidate lists of a one-word completion, concatenated. */
  function CandidatesByDevice(devices: seq<Device>, word: string): seq<string> {
    if devices == [] then []
    else PrefixFilter(PeripheralNames(devices[0].peripherals), word) + CandidatesByDevice(devices[1..], word)
  }

  /**
   * One-word completion keeps catalog order: the candidates of the first
   * device come first, each device's in its own order.
   */
  lemma {:induction false} CompleteInDeviceOrder(devices: seq<Device>, text: string, word: string)
    requires ' ' !in text
    ensures Complete(devices, text, word) == Candidates(CandidatesByDevice(devices, word))
  {
    CountZero(text, ' ');
    NamesInDeviceOrder(devices, word);
  }

  lemma {:induction false} NamesInDeviceOrder(devices: seq<Device>, word: string)
    ensures PrefixFilter(PeripheralNames(AllPeripherals(devices)), word) == CandidatesByDevice(devices, word)
  {
    if devices != [] {
      NamesInDeviceOrder(devices[1..], word);
      PeripheralNamesConcat(devices[0].peripherals, AllPeripherals(devices[1..]));
      PrefixFilterConcat(PeripheralNames(devices[0].peripherals), PeripheralNames(AllPeripherals(devices[1..])), word);
    }
  }

  /**
   * Completing the second word of "<peripheral> <word>" offers the
   * registers of that peripheral starting with the word, or raises when no
   * peripheral has that name.
   */
  lemma {:induction false} CompleteSecondWord(devices: seq<Device>, peripheral: string, word: string)
    requires ' ' !in peripheral && ' ' !in word
    ensures Complete(devices, peripheral + " " + word, word) ==
      match GetPeripheral(devices, peripheral)
      case None => NoSuchPeripheral
      case Some(p) => Candidates(PrefixFilter(RegisterNames(p.registers), word))
  {
    SplitNoSeparator(word, ' ');
    SplitCons(peripheral, word, ' ');
    assert peripheral + " " + word == peripheral + [' '] + word;
  }

  /** Why `load` stopped: `unable to load <file>`, or SVD.load's empty argument. */
  datatype LoadError = UnableToLoad(file: string) | NoFileSpecified {
    function Message(): string {
      match this
      case UnableToLoad(f) => "unable to load " + f
      case NoFileSpecified => "No file specified"
    }
  }

  /** The devices of the longest prefix of `files` that all parse. */
  function LoadedPrefix(files: seq<string>, parse: string -> Option<Device>): (ds: seq<Device>)
    ensures |ds| <= |files|
    ensures forall i :: 0 <= i < |ds| ==> parse(files[i]) == Some(ds[i])
    ensures |ds| < |files| ==> parse(files[|ds|]).None?
  {
    if files == [] then []
    else match parse(files[0])
      case None => []
      case Some(d) => [d] + LoadedPrefix(files[1..], parse)
  }

  /** The prefix is determined by its two properties. */
  lemma {:induction false} LoadedPrefixUnique(files: seq<string>, parse: string -> Option<Device>, ds: seq<Device>)
    requires |ds| <= |files|
    requires forall i :: 0 <= i < |ds| ==> parse(files[i]) == Some(ds[i])
    requires |ds| < |files| ==> parse(files[|ds|]).None?
    ensures ds == LoadedPrefix(files, parse)
  {
    if files != [] && ds != [] {
      LoadedPrefixUnique(files[1..], parse, ds[1..]);
    }
  }

  /** The outcome of loading `files`: the first one that does not parse, if any. */
  function LoadResult(files: seq<string>, parse: string -> Option<Device>): (o: Outcome<LoadError>)
    ensures o.Pass? <==> forall i :: 0 <= i < |files| ==> parse(files[i]).Some?
    ensures o.Pass? ==> |LoadedPrefix(files, parse)| == |files|
    ensures o.Fail? ==> o.error == UnableToLoad(files[|LoadedPrefix(files, parse)|])
  {
    var n := |LoadedPrefix(files, parse)|;
    if n == |files| then Pass else Fail(UnableToLoad(files[n]))
  }

  /** The device list of SVDDevicesHelper. */
  class DevicesHelper {
    var devices: seq<Device>

    constructor ()
      ensures devices == []
    {
      devices := [];
    }

    /**
     * `load(files)`: clears the list, then parses and appends the files in
     * order. The first file that does not parse stops the load with an error;
     * the devices appended before it stay loaded.
     */
    method Load(files: seq<string>, parse: string -> Option<Device>) returns (o: Outcome<LoadError>)
      modifies this
      ensures devices == LoadedPrefix(files, parse)
      ensures o == LoadResult(files, parse)
    {
      devices := [];
      var i := 0;
      while i < |files|
        invariant 0 <= i <= |files| && |devices| == i
        invariant forall j :: 0 <= j < i ==> parse(files[j]) == Some(devices[j])
      {
        var device := parse(files[i]);
        if device.Some? {
          devices := devices + [device.value];
        } else {
          LoadedPrefixUnique(files, parse, devices);
          return Fail(UnableToLoad(files[i]));
        }
        i := i + 1;
      }
      LoadedPrefixUnique(files, parse, devices);
      o := Pass;
    }
  }
}
