/** The layers agree: a chunk that the link accepts passes every check further down, with nothing truncated on
    the way to the drive (src/spi_link/transport.rs, src/usb_mass_storage/block_device.rs, and
    src/usb_mass_storage/usb_host_msc/src/msc_scsi_bot.c). */
module Layers {
  import opened Commands
  import opened Driver
  import opened Drives
  import opened Protocol
  import opened Words
  import Transports

  /** A drive with `count` blocks finds both commands for an accepted chunk inside its medium and of the right
      length, and the count in the command block is that of the chunk. */
  lemma AcceptedChunkOnMedium(req: Header, bs: u32, count: nat, tag: u32)
    requires 0 < count <= U32 && Asked(req, bs, count - 1).Ok?
    ensures var c := Asked(req, bs, count - 1).value;
            && c.nblocks < U16
            && InRange(Transports.ReadCommand(tag, c.lba, c.nblocks, bs), bs, count, c.len)
            && InRange(Transports.WriteCommand(tag, c.lba, c.nblocks, bs), bs, count, c.len)
            && Wrap16(c.nblocks) == c.nblocks
  {
    AcceptedChunk(bs, count - 1, req);
  }

  /** The driver's own checks let an accepted chunk through. */
  lemma AcceptedChunkNotRefused(usb: UsbMassStorage, req: Header)
    requires usb.Working() && Asked(req, usb.blockSize, usb.blockCount).Ok?
    ensures var c := Asked(req, usb.blockSize, usb.blockCount).value;
            && c.nblocks < U32
            && usb.Refusal(c.lba, c.nblocks, c.len).None? && usb.Whole(c.lba, c.nblocks)
  {
    AcceptedChunk(usb.blockSize, usb.blockCount, req);
  }
}
