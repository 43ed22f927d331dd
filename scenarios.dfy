/**
 * Client-side checks of the model on small trees: the assertions of the
 * repository's test, the address-or-hex rule on a concrete register, the
 * behaviour of `add` on a second identical request and of two refreshes.
 */
module Scenarios {
  import opened Wrappers
  import opened Text
  import opened Hex
  import opened Tree
  import opened Catalog
  import opened Render
  import opened Dashboard

  /** The test: one device loaded, `foo` not found, `TIMER0` found by name. */
  method TestSvd() {
    var ctrl := new Register("CR", 0, 32, [Field("EN", 0, 1), Field("RST", 1, 1)]);
    var timer0 := new Peripheral("TIMER0", 0x4001_0000, [ctrl]);
    var timer1 := new Peripheral("TIMER1", 0x4001_0100, []);
    var device := Device("ARM_Example", [timer0, timer1]);
    var helper := new DevicesHelper();
    var o := helper.Load(["./example.svd"], f => if f == "./example.svd" then Some(device) else None);
    assert o == Pass;
    assert DevicesName(helper.devices) == ["ARM_Example"];
    assert GetPeripheral(helper.devices, "foo") == None;
    var periph := GetPeripheral(helper.devices, "TIMER0");
    assert periph == Some(timer0) && periph.value.name == "TIMER0";
  }

  /** A file that does not parse stops the load; the files before it stay loaded. */
  method PartialLoad() {
    var a := Device("A", []);
    var helper := new DevicesHelper();
    var o := helper.Load(["a.svd", "bad.svd", "c.svd"], f => if f == "bad.svd" then None else Some(a));
    assert LoadedPrefix(["a.svd", "bad.svd", "c.svd"], f => if f == "bad.svd" then None else Some(a)) == [a];
    assert o == Fail(UnableToLoad("bad.svd"));
    assert helper.devices == [a];
  }

  /** An 8-bit register holding 3 renders with two digits. */
  lemma HexOfByte()
    ensures HexText(3, 8) == "0x03"
  {
    assert ToHex(3) == ['3'];
    assert PadLeft("3", 2, '0') == ['0', '3'];
  }

  /** A value wider than the digit count is never truncated. */
  lemma HexNotTruncated()
    ensures HexText(0x1f, 4) == "0x1f"
  {
    assert ToHex(1) == ['1'];
    assert ToHex(0x1f) == ToHex(1) + ['f'];
  }

  /**
   * With peripherals TIMER0 and UART0 in one device and TIMER1 in the next,
   * a word that TIMER0 and TIMER1 start with and UART0 does not (such as
   * "TIMER") completes to TIMER0 then TIMER1.
   */
  lemma CompleteOneWord(timer0: Peripheral, timer1: Peripheral, uart0: Peripheral, word: string)
    requires ' ' !in word
    requires StartsWith(timer0.name, word) && StartsWith(timer1.name, word) && !StartsWith(uart0.name, word)
    ensures Complete([Device("D", [timer0, uart0]), Device("E", [timer1])], word, word)
            == Candidates([timer0.name, timer1.name])
  {
    var devices := [Device("D", [timer0, uart0]), Device("E", [timer1])];
    CompleteInDeviceOrder(devices, word, word);
    OneWordCandidates(timer0, timer1, uart0, word);
  }

  lemma OneWordCandidates(timer0: Peripheral, timer1: Peripheral, uart0: Peripheral, word: string)
    requires StartsWith(timer0.name, word) && StartsWith(timer1.name, word) && !StartsWith(uart0.name, word)
    ensures CandidatesByDevice([Device("D", [timer0, uart0]), Device("E", [timer1])], word)
            == [timer0.name, timer1.name]
  {
    var devices := [Device("D", [timer0, uart0]), Device("E", [timer1])];
    KeepFirstOfTwo(timer0, uart0, word);
    KeepOnly(timer1, word);
    var rest := devices[1..];
    assert rest == [Device("E", [timer1])] && rest[1..] == [];
    assert CandidatesByDevice(rest, word) == [timer1.name];
    assert CandidatesByDevice(devices, word) == [timer0.name] + CandidatesByDevice(rest, word);
  }

  lemma KeepFirstOfTwo(a: Peripheral, b: Peripheral, word: string)
    requires StartsWith(a.name, word) && !StartsWith(b.name, word)
    ensures PrefixFilter(PeripheralNames([a, b]), word) == [a.name]
  {
    var names := [a.name, b.name];
    assert PeripheralNames([a, b]) == names;
    assert names[1..] == [b.name] && names[1..][1..] == [];
  }

  lemma KeepOnly(a: Peripheral, word: string)
    requires StartsWith(a.name, word)
    ensures PrefixFilter(PeripheralNames([a]), word) == [a.name]
  {
    assert PeripheralNames([a]) == [a.name];
    assert [a.name][1..] == [];
  }

  /**
   * The code filters by the word being completed, so an empty word
   * completes to every peripheral name.
   */
  lemma CompleteEmptyWord(devices: seq<Device>, text: string)
    requires ' ' !in text
    ensures Complete(devices, text, "") == Candidates(PeripheralNames(AllPeripherals(devices)))
  {
    CountZero(text, ' ');
    PrefixFilterEmptyWord(PeripheralNames(AllPeripherals(devices)));
  }

  /**
   * A 32-bit register with one full-width field reading 1 is shown as an
   * address on a 32-bit target and as 0x00000001 on a 64-bit one.
   */
  lemma AddressOrHex(ctrl: Register, timer0: Peripheral,
                     readMem: (nat, nat) -> Option<nat>, showPointer: nat -> string)
    requires ctrl.size == 32 && ctrl.fields == [Field("VALUE", 0, 32)] && ctrl.addressOffset == 0
    requires timer0.baseAddress == 0x4000_8000
    requires readMem(0x4000_8000, 32) == Some(1)
    ensures GetAddrAndValue(timer0, ctrl, 4, readMem, showPointer)
            == Shown(showPointer(0x4000_8000), showPointer(1))
    ensures GetAddrAndValue(timer0, ctrl, 8, readMem, showPointer).value == "0x" + seq(7, _ => '0') + "1"
  {
    assert LooksLikeAddress(ctrl, 4) && !LooksLikeAddress(ctrl, 8);
    HexOfDigit(1, ctrl.size);
  }

  /**
   * Any request that `add` accepts is refused when repeated, with the list
   * holding the new entry once.
   */
  method AddTwice(svd: Svd, arg: string) returns (first: Outcome<AddError>, second: Outcome<AddError>)
    requires svd.Valid()
    modifies svd
    ensures first.Pass? ==> second == Fail(AlreadyRegistered(arg))
    ensures |svd.registers| == |old(svd.registers)| + (if first.Pass? then 1 else 0)
  {
    first := svd.Add(arg);
    ghost var afterFirst := svd.registers;
    second := svd.Add(arg);
    if first.Pass? {
      assert afterFirst[|afterFirst| - 1].p == svd.registers[|afterFirst| - 1].p;
    }
  }

  /** A single word is a usage error and changes nothing. */
  method AddUsage(svd: Svd)
    requires svd.Valid()
    modifies svd
  {
    var before := svd.registers;
    assert Split("TIMER0", ' ') == ["TIMER0"] by {
      SplitNoSeparator("TIMER0", ' ');
    }
    var o := svd.Add("TIMER0");
    assert o == Fail(Usage) && svd.registers == before;
  }

  /**
   * Two refreshes against the same memory: the second shows the same text
   * and flags an entry as changed only if that text is empty.
   */
  method RefreshTwice(svd: Svd, termWidth: nat, pointerBytes: nat,
                      readMem: (nat, nat) -> Option<nat>, showPointer: nat -> string)
    returns (first: seq<Line>, second: seq<Line>)
    requires svd.Valid()
    requires forall i :: 0 <= i < |svd.registers| ==> AlignWidth(termWidth, |svd.registers[i].p.name|) >= 0
    modifies svd
    ensures |first| == |second| == |old(svd.registers)|
    ensures forall i :: 0 <= i < |second| ==>
      second[i].value == first[i].value && (second[i].changed <==> first[i].value == "")
  {
    first := svd.Lines(termWidth, pointerBytes, readMem, showPointer);
    ghost var between := svd.registers;
    second := svd.Lines(termWidth, pointerBytes, readMem, showPointer);
    forall i | 0 <= i < |second|
      ensures second[i].value == first[i].value && (second[i].changed <==> first[i].value == "")
    {
      SecondRefreshUnchanged(old(svd.registers)[i], termWidth, pointerBytes, readMem, showPointer);
    }
  }
}
