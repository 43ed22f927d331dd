/**
 * `get_addr_and_value`: the address of a register and the text of its
 * current value. The debugger is reached through three parameters: the
 * size in bytes of a pointer of the selected frame's architecture, a memory
 * read `readMem(address, bits)` that yields None when gdb raises, and
 * `showPointer`, gdb's own text for a value cast to a pointer type.
 */
module Render {
  import opened Wrappers
  import opened Hex
  import opened Tree

  const UNAVAILABLE := "<unavailable>"

  /**
   * The register is as wide as a pointer and has no fields or a single
   * field spanning the whole register: its content is shown as an address.
   */
  predicate LooksLikeAddress(r: Register, pointerBytes: nat) {
    pointerBytes * 8 == r.size &&
    (|r.fields| == 0 || (|r.fields| == 1 && r.fields[0].bitWidth == r.size))
  }

  datatype Shown = Shown(addr: string, value: string)

  /** The effective address of register `r` of peripheral `p`. */
  function Address(p: Peripheral, r: Register): nat {
    p.baseAddress + r.addressOffset
  }

  /**
   * The address text is the pointer `base + offset`. The value is the
   * pointer text of the word read there when the register looks like an
   * address, `0x` and at least `size / 4` zero-padded hexadecimal digits
   * otherwise, and `<unavailable>` whenever the read fails.
   */
  function GetAddrAndValue(p: Peripheral, r: Register, pointerBytes: nat,
                           readMem: (nat, nat) -> Option<nat>, showPointer: nat -> string): (s: Shown)
    ensures s.addr == showPointer(p.baseAddress + r.addressOffset)
    ensures readMem(p.baseAddress + r.addressOffset, r.size).None? ==> s.value == UNAVAILABLE
    ensures readMem(p.baseAddress + r.addressOffset, r.size).Some? && LooksLikeAddress(r, pointerBytes) ==>
      s.value == showPointer(readMem(p.baseAddress + r.addressOffset, r.size).value)
    ensures readMem(p.baseAddress + r.addressOffset, r.size).Some? && !LooksLikeAddress(r, pointerBytes) ==>
      var v := readMem(p.baseAddress + r.addressOffset, r.size).value;
      && |s.value| == 2 + Max(|ToHex(v)|, r.size / 4)
      && s.value[..2] == "0x"
      && AllHex(s.value[2..]) && HexValue(s.value[2..]) == v
      && s.value != UNAVAILABLE
  {
    var addr := Address(p, r);
    var value :=
      match readMem(addr, r.size)
      case None => UNAVAILABLE
      case Some(v) =>
        if LooksLikeAddress(r, pointerBytes) then showPointer(v)
        else
          var t := HexText(v, r.size);
          assert t[0] == t[..2][0] == '0' != UNAVAILABLE[0];
          t;
    Shown(showPointer(addr), value)
  }
}
