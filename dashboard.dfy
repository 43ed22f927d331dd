/**
 * The SVD dashboard module: the device catalog it owns (SVD derives from
 * SVDDevicesHelper in the source; here it holds one) and the watch list of
 * (peripheral, register, last value) entries with its commands `load`,
 * `add`, `clear` and the refresh `lines`.
 */
module Dashboard {
  import opened Wrappers
  import opened Text
  import opened Tree
  import opened Catalog
  import opened Render

  /** A watched register and the value text shown last time, None before the first refresh. */
  datatype Entry = Entry(p: Peripheral, r: Register, last: Option<string>)

  /** `other_p is p and other_r is r`. */
  predicate SamePair(a: Entry, b: Entry) {
    a.p == b.p && a.r == b.r
  }

  predicate NoDuplicatePairs(es: seq<Entry>) {
    forall i, j :: 0 <= i < j < |es| ==> !SamePair(es[i], es[j])
  }

  /** Looking the entry's names up again finds the entry's own objects. */
  predicate Resolves(devices: seq<Device>, e: Entry) {
    GetPeripheral(devices, e.p.name) == Some(e.p) && GetRegister(e.p, e.r.name) == Some(e.r)
  }

  /**
   * For entries made by `add`, comparing by identity is comparing by
   * names: two entries are the same pair exactly when their peripheral
   * names and register names agree.
   */
  lemma IdentityIsByName(devices: seq<Device>, a: Entry, b: Entry)
    requires Resolves(devices, a) && Resolves(devices, b)
    ensures SamePair(a, b) <==> a.p.name == b.p.name && a.r.name == b.r.name
  {
  }

  /** Every entry of `es` resolves. */
  predicate AllResolve(devices: seq<Device>, es: seq<Entry>) {
    es == [] || (Resolves(devices, es[0]) && AllResolve(devices, es[1..]))
  }

  lemma {:induction false} AllResolveAppend(devices: seq<Device>, es: seq<Entry>, e: Entry)
    requires AllResolve(devices, es) && Resolves(devices, e)
    ensures AllResolve(devices, es + [e])
  {
    if es != [] {
      AllResolveAppend(devices, es[1..], e);
      assert (es + [e])[1..] == es[1..] + [e];
    }
  }

  /** Appending a pair not yet watched keeps the watch list free of duplicates. */
  lemma NoDuplicatesAppend(es: seq<Entry>, e: Entry)
    requires NoDuplicatePairs(es)
    requires forall i :: 0 <= i < |es| ==> !(es[i].p == e.p && es[i].r == e.r)
    ensures NoDuplicatePairs(es + [e])
  {
    var t := es + [e];
    forall i, j | 0 <= i < j < |t|
      ensures !SamePair(t[i], t[j])
    {
      assert t[i] == es[i];
    }
  }

  /** Replacing stored values only keeps the watch list free of duplicates and resolvable. */
  lemma {:induction false} SamePairsKeepValid(devices: seq<Device>, before: seq<Entry>, after: seq<Entry>)
    requires |before| == |after|
    requires forall i :: 0 <= i < |after| ==> SamePair(after[i], before[i])
    requires NoDuplicatePairs(before)
    requires AllResolve(devices, before)
    ensures NoDuplicatePairs(after)
    ensures AllResolve(devices, after)
  {
    assert forall i, j :: 0 <= i < j < |after| ==> SamePair(after[i], after[j]) == SamePair(before[i], before[j]);
    if after != [] {
      assert SamePair(after[0], before[0]);
      SamePairsKeepValid(devices, before[1..], after[1..]);
    }
  }

  /** Python's truthiness of the stored value: None and "" are false. */
  predicate Falsy(v: Option<string>) {
    v.None? || v.value == ""
  }

  /**
   * `int(term_width / 4 - len(name))`: the quotient of `term_width - 4 * len`
   * by 4, rounded toward zero (AlignWidthTruncates states it on reals). It
   * is non-negative exactly when `4 * len(name) < term_width + 4`.
   */
  function AlignWidth(termWidth: nat, nameLength: nat): (w: int)
    ensures var n := termWidth - 4 * nameLength;
      && (n >= 0 ==> 4 * w <= n < 4 * w + 4)
      && (n < 0 ==> 4 * w - 4 < n <= 4 * w)
    ensures w >= 0 <==> 4 * nameLength < termWidth + 4
  {
    var n := termWidth - 4 * nameLength;
    if n >= 0 then n / 4 else -((-n) / 4)
  }

  /** The width is Python's `int()` of the real `term_width / 4 - len(name)`. */
  lemma AlignWidthTruncates(termWidth: nat, nameLength: nat)
    ensures var x := termWidth as real / 4.0 - nameLength as real;
      var w := AlignWidth(termWidth, nameLength);
      && (x >= 0.0 ==> w as real <= x < w as real + 1.0)
      && (x < 0.0 ==> w as real - 1.0 < x <= w as real)
  {
    var n := termWidth - 4 * nameLength;
    var w := AlignWidth(termWidth, nameLength);
    assert termWidth as real / 4.0 - nameLength as real == n as real / 4.0;
  }

  /**
   * One output line without its terminal styling: the low-styled prefix
   * `<peripheral> <register right-aligned> (<address>): `, the value text
   * and whether the value is highlighted as changed.
   */
  datatype Line = Line(text: string, value: string, changed: bool)

  /**
   * The line `lines` shows for entry `e`: the value just rendered, flagged
   * as changed when the stored value is falsy or differs from it.
   */
  function LineOf(e: Entry, termWidth: nat, pointerBytes: nat,
                  readMem: (nat, nat) -> Option<nat>, showPointer: nat -> string): Line
    requires AlignWidth(termWidth, |e.p.name|) >= 0
  {
    var shown := GetAddrAndValue(e.p, e.r, pointerBytes, readMem, showPointer);
    var text := e.p.name + " " + PadLeft(e.r.name, AlignWidth(termWidth, |e.p.name|) as nat, ' ')
                + " (" + shown.addr + "): ";
    Line(text, shown.value, Falsy(e.last) || e.last.value != shown.value)
  }

  /** The entry after its line was produced: a changed entry stores the new value. */
  function Refreshed(e: Entry, l: Line): Entry {
    if l.changed then Entry(e.p, e.r, Some(l.value)) else e
  }

  /**
   * Refreshing an entry keeps its pair and leaves it storing exactly the
   * text just shown, whether or not it was flagged as changed.
   */
  lemma RefreshStoresShown(e: Entry, termWidth: nat, pointerBytes: nat,
                           readMem: (nat, nat) -> Option<nat>, showPointer: nat -> string)
    requires AlignWidth(termWidth, |e.p.name|) >= 0
    ensures var l := LineOf(e, termWidth, pointerBytes, readMem, showPointer);
      SamePair(Refreshed(e, l), e) && Refreshed(e, l).last == Some(l.value)
  {
  }

  /**
   * Highlighting marks changes only: refreshing a refreshed entry again,
   * when memory reads the same, flags it as changed only if its text is
   * empty (Python treats "" as unset).
   */
  lemma SecondRefreshUnchanged(e: Entry, termWidth: nat, pointerBytes: nat,
                               readMem: (nat, nat) -> Option<nat>, showPointer: nat -> string)
    requires AlignWidth(termWidth, |e.p.name|) >= 0
    ensures var l := LineOf(e, termWidth, pointerBytes, readMem, showPointer);
      var again := LineOf(Refreshed(e, l), termWidth, pointerBytes, readMem, showPointer);
      again.value == l.value && (again.changed <==> l.value == "")
  {
  }

  /**
   * The loop step of `lines`: with the first `index` entries refreshed and
   * the rest untouched, refreshing entry `index` extends the refreshed part
   * by one.
   */
  lemma RefreshedStep(olds: seq<Entry>, before: seq<Entry>, after: seq<Entry>,
                      outBefore: seq<Line>, out: seq<Line>, index: nat, termWidth: nat, pointerBytes: nat,
                      readMem: (nat, nat) -> Option<nat>, showPointer: nat -> string)
    requires index < |olds| == |before| && |outBefore| == index
    requires forall i :: 0 <= i < |olds| ==> AlignWidth(termWidth, |olds[i].p.name|) >= 0
    requires forall i :: index <= i < |before| ==> before[i] == olds[i]
    requires forall i :: 0 <= i < index ==>
      && outBefore[i] == LineOf(olds[i], termWidth, pointerBytes, readMem, showPointer)
      && before[i] == Refreshed(olds[i], outBefore[i])
    requires out == outBefore + [LineOf(olds[index], termWidth, pointerBytes, readMem, showPointer)]
    requires after == before[index := Refreshed(olds[index], out[index])]
    ensures forall i :: index + 1 <= i < |after| ==> after[i] == olds[i]
    ensures forall i :: 0 <= i < index + 1 ==>
      && out[i] == LineOf(olds[i], termWidth, pointerBytes, readMem, showPointer)
      && after[i] == Refreshed(olds[i], out[i])
  {
    forall i | 0 <= i < index + 1
      ensures out[i] == LineOf(olds[i], termWidth, pointerBytes, readMem, showPointer)
      ensures after[i] == Refreshed(olds[i], out[i])
    {
      if i < index {
        assert out[i] == outBefore[i] && after[i] == before[i];
      }
    }
  }

  /** The errors `add` raises. */
  datatype AddError = Usage | PeripheralNotFound(peripheral: string)
                    | RegisterNotFound(register: string) | AlreadyRegistered(arg: string)
  {
    function Message(): string {
      match this
      case Usage => "Usage: add <peripheral> <register>"
      case PeripheralNotFound(n) => "Peripheral " + n + " not found"
      case RegisterNotFound(n) => "Register " + n + " not found"
      case AlreadyRegistered(a) => a + " already registered"
    }
  }

  class Svd {
    const helper: DevicesHelper
    var registers: seq<Entry>

    /** The watch list holds no pair twice and every entry names objects of the loaded tree. */
    ghost predicate Valid()
      reads this, helper
    {
      && NoDuplicatePairs(registers)
      && AllResolve(helper.devices, registers)
    }

    constructor ()
      ensures Valid() && fresh(helper)
      ensures helper.devices == [] && registers == []
    {
      helper := new DevicesHelper();
      registers := [];
    }

    /**
     * `label()`: "SVD" exactly when no device is loaded; otherwise
     * "SVD [" + names + "]", where the names between the brackets, split at
     * commas, are the loaded device names in load order (when no name holds
     * a comma).
     */
    function Label(): (l: string)
      reads helper
      ensures l == "SVD" <==> helper.devices == []
      ensures helper.devices != [] ==>
        && |l| >= 6 && l[..5] == "SVD [" && l[|l| - 1] == ']'
        && ((forall i :: 0 <= i < |helper.devices| ==> ',' !in helper.devices[i].name) ==>
              Split(l[5..|l| - 1], ',') == DevicesName(helper.devices))
    {
      var names := DevicesName(helper.devices);
      if |names| == 0 then "SVD"
      else
        var l := "SVD [" + Join(names, ',') + "]";
        assert l[5..|l| - 1] == Join(names, ',');
        assert (forall i :: 0 <= i < |names| ==> ',' !in names[i]) ==> Split(Join(names, ','), ',') == names by {
          if forall i :: 0 <= i < |names| ==> ',' !in names[i] {
            SplitJoin(names, ',');
          }
        }
        l
    }

    /** `clear`: the watch list becomes empty. */
    method Clear()
      modifies this
      ensures registers == [] && Valid()
    {
      registers := [];
    }

    /**
     * `load(arg)`: an empty argument fails with "No file specified" and
     * changes nothing. Otherwise the watch list is cleared and the catalog
     * loads the space-separated file names of `arg`.
     */
    method Load(arg: string, parse: string -> Option<Device>) returns (o: Outcome<LoadError>)
      requires Valid()
      modifies this, helper
      ensures Valid()
      ensures arg == "" ==>
        o == Fail(NoFileSpecified) && registers == old(registers) && helper.devices == old(helper.devices)
      ensures arg != "" ==>
        && registers == []
        && helper.devices == LoadedPrefix(Split(arg, ' '), parse)
        && o == LoadResult(Split(arg, ' '), parse)
    {
      if arg != "" {
        Clear();
        o := helper.Load(Split(arg, ' '), parse);
      } else {
        o := Fail(NoFileSpecified);
      }
    }

    /** The scan of `add`: is the pair (`p`, `r`) already in the watch list, by identity? */
    method IsWatched(p: Peripheral, r: Register) returns (found: bool)
      ensures found <==> exists i :: 0 <= i < |registers| && registers[i].p == p && registers[i].r == r
    {
      var i := 0;
      while i < |registers|
        invariant 0 <= i <= |registers|
        invariant forall j :: 0 <= j < i ==> !(registers[j].p == p && registers[j].r == r)
      {
        if registers[i].p == p && registers[i].r == r {
          return true;
        }
        i := i + 1;
      }
      return false;
    }

    /**
     * `add(arg)`: `arg` must split into exactly two words, a peripheral
     * name and a register name that both resolve, and the pair must not be
     * watched yet (by identity); then it is appended with no value. Every
     * failure leaves the list as it was.
     */
    method Add(arg: string) returns (o: Outcome<AddError>)
      requires Valid()
      modifies this
      ensures Valid()
      ensures o.Fail? ==> registers == old(registers)
      ensures var args := Split(arg, ' ');
        if |args| != 2 then o == Fail(Usage)
        else match GetPeripheral(helper.devices, args[0])
          case None => o == Fail(PeripheralNotFound(args[0]))
          case Some(p) => match GetRegister(p, args[1])
            case None => o == Fail(RegisterNotFound(args[1]))
            case Some(r) =>
              if exists i :: 0 <= i < |old(registers)| && old(registers)[i].p == p && old(registers)[i].r == r
              then o == Fail(AlreadyRegistered(arg))
              else o == Pass && registers == old(registers) + [Entry(p, r, None)]
    {
      var args := Split(arg, ' ');
      if |args| != 2 {
        return Fail(Usage);
      }
      var peripheral, register := args[0], args[1];
      var p := GetPeripheral(helper.devices, peripheral);
      if p.None? {
        return Fail(PeripheralNotFound(peripheral));
      }
      var r := GetRegister(p.value, register);
      if r.None? {
        return Fail(RegisterNotFound(register));
      }
      var watched := IsWatched(p.value, r.value);
      if watched {
        return Fail(AlreadyRegistered(arg));
      }
      assert p.value.name == peripheral && r.value.name == register;
      AllResolveAppend(helper.devices, registers, Entry(p.value, r.value, None));
      NoDuplicatesAppend(registers, Entry(p.value, r.value, None));
      registers := registers + [Entry(p.value, r.value, None)];
      o := Pass;
    }

    /**
     * One step of `lines`: entry `index` is rendered, replaced by its
     * refreshed form when changed, and its line returned; no other entry
     * changes.
     */
    method RefreshEntry(index: nat, termWidth: nat, pointerBytes: nat,
                        readMem: (nat, nat) -> Option<nat>, showPointer: nat -> string) returns (line: Line)
      requires index < |registers|
      requires AlignWidth(termWidth, |registers[index].p.name|) >= 0
      modifies this
      ensures line == LineOf(old(registers)[index], termWidth, pointerBytes, readMem, showPointer)
      ensures registers == old(registers)[index := Refreshed(old(registers)[index], line)]
    {
      var e := registers[index];
      var width := AlignWidth(termWidth, |e.p.name|);
      var shown := GetAddrAndValue(e.p, e.r, pointerBytes, readMem, showPointer);
      var changed;
      if e.last.Some? && e.last.value != "" && e.last.value == shown.value {
        changed := false;
      } else {
        registers := registers[index := Entry(e.p, e.r, Some(shown.value))];
        changed := true;
      }
      var text := e.p.name + " " + PadLeft(e.r.name, width as nat, ' ') + " (" + shown.addr + "): ";
      line := Line(text, shown.value, changed);
    }

    /**
     * `lines(term_width, ...)`: one line per entry, in list order, each
     * entry refreshed by LineOf and Refreshed: only the stored value of a
     * changed entry is replaced. Afterwards every entry stores the text just
     * shown; peripherals, registers and order are unchanged.
     */
    method Lines(termWidth: nat, pointerBytes: nat,
                 readMem: (nat, nat) -> Option<nat>, showPointer: nat -> string) returns (out: seq<Line>)
      requires Valid()
      requires forall i :: 0 <= i < |registers| ==> AlignWidth(termWidth, |registers[i].p.name|) >= 0
      modifies this
      ensures Valid()
      ensures |registers| == |old(registers)| == |out|
      ensures forall i :: 0 <= i < |out| ==>
        && out[i] == LineOf(old(registers)[i], termWidth, pointerBytes, readMem, showPointer)
        && registers[i] == Refreshed(old(registers)[i], out[i])
      ensures forall i :: 0 <= i < |out| ==>
        && SamePair(registers[i], old(registers)[i])
        && registers[i].last == Some(out[i].value)
    {
      out := [];
      var index := 0;
      while index < |registers|
        invariant 0 <= index <= |registers| == |old(registers)| && |out| == index
        invariant forall i :: index <= i < |registers| ==> registers[i] == old(registers)[i]
        invariant forall i :: 0 <= i < index ==>
          && out[i] == LineOf(old(registers)[i], termWidth, pointerBytes, readMem, showPointer)
          && registers[i] == Refreshed(old(registers)[i], out[i])
      {
        ghost var before := registers;
        ghost var outBefore := out;
        assert registers[index] == old(registers)[index];
        var line := RefreshEntry(index, termWidth, pointerBytes, readMem, showPointer);
        out := out + [line];
        RefreshedStep(old(registers), before, registers, outBefore, out, index,
                      termWidth, pointerBytes, readMem, showPointer);
        index := index + 1;
      }
      forall i | 0 <= i < |out|
        ensures SamePair(registers[i], old(registers)[i]) && registers[i].last == Some(out[i].value)
      {
        RefreshStoresShown(old(registers)[i], termWidth, pointerBytes, readMem, showPointer);
      }
      SamePairsKeepValid(helper.devices, old(registers), registers);
    }
  }
}
