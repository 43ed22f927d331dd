/**
 * The parsed SVD tree: a device holds peripherals, a peripheral holds
 * registers, a register holds bit fields. The tree is never changed after
 * parsing. Peripheral and Register are classes because the watch list
 * compares them by object identity (Python's `is`), not by content.
 */
module Tree {

  datatype Field = Field(name: string, bitOffset: nat, bitWidth: nat)

  class Register {
    const name: string
    const addressOffset: nat
    /** Width in bits. */
    const size: nat
    const fields: seq<Field>

    constructor (name: string, addressOffset: nat, size: nat, fields: seq<Field>)
      ensures this.name == name && this.addressOffset == addressOffset
      ensures this.size == size && this.fields == fields
    {
      this.name := name;
      this.addressOffset := addressOffset;
      this.size := size;
      this.fields := fields;
    }
  }

  class Peripheral {
    const name: string
    const baseAddress: nat
    const registers: seq<Register>

    constructor (name: string, baseAddress: nat, registers: seq<Register>)
      ensures this.name == name && this.baseAddress == baseAddress
      ensures this.registers == registers
    {
      this.name := name;
      this.baseAddress := baseAddress;
      this.registers := registers;
    }
  }

  datatype Device = Device(name: string, peripherals: seq<Peripheral>)
}
