/**
 Which of an adapter's ports carries the SPI bus and which one the reset line: the enumeration
 in `ftdi_spi_init` of `transport/ftdi_spi.c`.
 */
module FtdiSpi {
  const UINT32_MAX: nat := 0xFFFF_FFFF
  const MMDEBUG_MAX_CHANNELS: nat := 4
  const ETRANSFTDISPIERR: int := 4

  datatype Port = Port(locId: nat, serial: string)

  /** A port of the wanted adapter; the highest location cannot be told from none. */
  predicate Eligible(ports: seq<Port>, serial: string, i: nat) {
    i < |ports| && serial <= ports[i].serial && ports[i].locId < UINT32_MAX
  }

  /** The order of location, and of enumeration where two locations are the same. */
  predicate Before(ports: seq<Port>, i: nat, j: nat)
    requires i < |ports| && j < |ports|
  {
    ports[i].locId < ports[j].locId || (ports[i].locId == ports[j].locId && i < j)
  }

  /** The first of the eligible ports below n other than `not`, or UINT32_MAX for none. */
  predicate Lowest(ports: seq<Port>, serial: string, n: nat, not: nat, ch: nat) {
    if ch == UINT32_MAX then forall j: nat :: j < n && Eligible(ports, serial, j) ==> j == not
    else
      && ch < n && ch != not && Eligible(ports, serial, ch)
      && forall j: nat :: j < n && Eligible(ports, serial, j) ==> j == not || j == ch || Before(ports, ch, j)
  }

  class ChanInfo {
    var spiLocId: nat
    var spiLocIdCh: nat
    var resetLocId: nat
    var resetLocIdCh: nat

    constructor ()
      ensures spiLocId == spiLocIdCh == resetLocId == resetLocIdCh == UINT32_MAX
    {
      spiLocId, spiLocIdCh, resetLocId, resetLocIdCh := UINT32_MAX, UINT32_MAX, UINT32_MAX, UINT32_MAX;
    }

    /** The SPI port is the lowest port seen so far, and the reset port is the next one. */
    ghost predicate Chosen(ports: seq<Port>, serial: string, n: nat)
      reads this
    {
      && n <= |ports| < UINT32_MAX
      && Lowest(ports, serial, n, UINT32_MAX, spiLocIdCh) && Lowest(ports, serial, n, spiLocIdCh, resetLocIdCh)
      && spiLocId == (if spiLocIdCh == UINT32_MAX then UINT32_MAX else ports[spiLocIdCh].locId)
      && resetLocId == (if resetLocIdCh == UINT32_MAX then UINT32_MAX else ports[resetLocIdCh].locId)
    }

    /** ftdi_spi_set_spi_and_reset_chan */
    method SetSpiAndResetChan(locId: nat, channelNum: nat, ghost ports: seq<Port>, ghost serial: string)
      requires Chosen(ports, serial, channelNum) && channelNum < |ports|
      requires ports[channelNum].locId == locId && serial <= ports[channelNum].serial && locId <= UINT32_MAX
      modifies this
      ensures Chosen(ports, serial, channelNum + 1)
    {
      if locId < spiLocId {
        resetLocId, resetLocIdCh := spiLocId, spiLocIdCh;
        spiLocId, spiLocIdCh := locId, channelNum;
      } else if locId < resetLocId {
        resetLocId, resetLocIdCh := locId, channelNum;
      }
    }

    /** The loop over the channels; it fails unless two ports of the adapter were found. */
    method Enumerate(ports: seq<Port>, serial: string) returns (ret: int)
      requires spiLocId == spiLocIdCh == resetLocId == resetLocIdCh == UINT32_MAX
      requires forall p :: p in ports ==> p.locId <= UINT32_MAX
      modifies this
      ensures |ports| > MMDEBUG_MAX_CHANNELS ==> ret < 0
      ensures |ports| <= MMDEBUG_MAX_CHANNELS ==>
                && Chosen(ports, serial, |ports|)
                && (ret == 0 <==> exists i: nat, j: nat :: i != j && Eligible(ports, serial, i) && Eligible(ports, serial, j))
    {
      if |ports| > MMDEBUG_MAX_CHANNELS {
        return -ETRANSFTDISPIERR;
      }
      for ii := 0 to |ports|
        invariant Chosen(ports, serial, ii)
      {
        // Without a serial number every port will do.
        if serial <= ports[ii].serial {
          SetSpiAndResetChan(ports[ii].locId, ii, ports, serial);
        }
      }
      if spiLocIdCh == UINT32_MAX || resetLocIdCh == UINT32_MAX {
        return -ETRANSFTDISPIERR;
      }
      ret := 0;
    }
  }
}
