/** The DMA controller's control register. */
module Dma {
  import opened Common

  /** The control register's value after reset. */
  const ResetControl: U32 := 0x0765_4321

  class DMA {
    var control: U32

    /** `DMA::new`: the control register holds its reset value. */
    constructor ()
      ensures control == ResetControl
    {
      control := ResetControl;
    }

    /** `write_register`: the control register takes the written value. */
    method WriteRegister(control: U32)
      modifies this
      ensures this.control == control
    {
      this.control := control;
    }

    /** `read_register`: the control register, whatever the offset; reading
        changes nothing. */
    method ReadRegister(offset: U32) returns (value: U32)
      ensures value == control
    {
      value := control;
    }
  }

  /** A read after a write returns the written value, at any offset, and
      a read of a new controller returns the reset value. */
  method WriteThenRead(control: U32, offset: U32) returns (initial: U32, written: U32)
    ensures initial == ResetControl && written == control
  {
    var dma := new DMA();
    initial := dma.ReadRegister(offset);
    dma.WriteRegister(control);
    written := dma.ReadRegister(offset);
  }
}
