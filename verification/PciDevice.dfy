/** PCI devices, and the 16 bits of bus, device and function that name them within a segment. */
module PciDevices {
  import opened Basics

  datatype PciDevice = PciDevice(segment: nat, bus: Byte, device: Byte, function_: Byte)

  predicate ValidPci(d: PciDevice) {
    d.device < 32 && d.function_ < 8
  }

  function Bdf(d: PciDevice): nat {
    d.bus * 256 + d.device * 8 + d.function_
  }

  lemma BdfFits(d: PciDevice)
    requires ValidPci(d)
    ensures Bdf(d) < 0x1_0000
  {
  }

  function DeviceOf(segment: nat, bdf: nat): PciDevice {
    PciDevice(segment, bdf / 256 % 256, bdf / 8 % 32, bdf % 8)
  }

  lemma DeviceOfBdf(d: PciDevice)
    requires ValidPci(d)
    ensures DeviceOf(d.segment, Bdf(d)) == d
  {
    assert Bdf(d) / 8 == d.bus * 32 + d.device;
  }
}
