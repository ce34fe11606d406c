/** The local RF interface of a radio unit: `rx_rf` turns device timestamps, with arbitrary drift, into
    a clock that advances by exactly one TTI per read; `tx_rf` writes relative to the same offset. */
module RadioUnit {
  import opened FrameParms
  import opened Options
  import opened Timing
  import opened TxBurst

  /** One read of the device: its timestamp, the number of samples, and the frame number of a resynch
      command that is pending at that moment, if any. */
  datatype Read = Read(ts: int, rxs: nat, cmd: Option<nat>)

  /** The correction of a resynch command fits the 32-bit arithmetic that computes it. */
  predicate ValidSpt(spt: nat) {
    0 < spt && 10230 * spt < 0x1_0000_0000
  }

  /** The offset correction of a resynch command, computed in unsigned 32-bit arithmetic. */
  function ResynchDelta(frameRx: nat, cmd: Option<nat>, spt: nat): int {
    match cmd
    case None => 0
    case Some(c) =>
      if frameRx > c then ((frameRx - c) * spt * 10) % 0x1_0000_0000
      else 0 - ((c - frameRx) * spt * 10) % 0x1_0000_0000
  }

  class RadioUnit {
    var tsOffset: int
    var timestampRx: int
    var frameRx: nat
    var ttiRx: int
    var firstRx: bool
    var lateControl: Late

    constructor()
      ensures firstRx && tsOffset == 0 && timestampRx == 0 && frameRx == 0 && ttiRx == 0 && lateControl == Normal
    {
      tsOffset, timestampRx, frameRx, ttiRx, firstRx, lateControl := 0, 0, 0, 0, true, Normal;
    }

    /** `rx_rf`.  After the first read the clock is zero; a read without a command advances it by one
        TTI whatever the device says, and the offset absorbs the difference; a command moves the offset
        instead and is not corrected for drift.  `emulate` is the setting that makes the clock run without
        device time; an emulated device is one whose reads have timestamp 0 and all samples. */
    method RxRf(spt: nat, read: Read, emulate: bool, frame: nat, subframe: nat)
      returns (frame': nat, subframe': int, exited: bool)
      requires ValidSpt(spt)
      modifies this
      ensures !firstRx
      ensures lateControl == if read.rxs != spt then Terminate else old(lateControl)
      ensures frameRx == FrameOfStamp(timestampRx, spt) && ttiRx == TtiOfStamp(timestampRx, spt)
      ensures old(firstRx) ==>
        && timestampRx == 0 && frame' == frameRx && subframe' == ttiRx && !exited
        && (!emulate ==> tsOffset == read.ts - old(tsOffset) - ResynchDelta(old(frameRx), read.cmd, spt))
      ensures !old(firstRx) ==>
        && frame' == (if read.cmd.Some? then read.cmd.value else frame)
        && subframe' == subframe
        && (exited <==> ttiRx != subframe || frameRx != frame')
      ensures !old(firstRx) && (emulate || read.cmd.None?) ==> timestampRx == old(timestampRx) + spt
      ensures !old(firstRx) && !emulate ==> tsOffset + timestampRx == read.ts
      ensures !old(firstRx) && !emulate && read.cmd.Some? ==>
        tsOffset == old(tsOffset) + ResynchDelta(old(frameRx), read.cmd, spt)
    {
      var oldTs := timestampRx;
      var resynch := false;
      frame', subframe', exited := frame, subframe, false;
      if read.cmd.Some? {
        var c := read.cmd.value;
        if frameRx > c {
          tsOffset := tsOffset + ((frameRx - c) * spt * 10) % 0x1_0000_0000;
        } else {
          tsOffset := tsOffset - ((c - frameRx) * spt * 10) % 0x1_0000_0000;
        }
        frame' := c;
        resynch := true;
      }
      if emulate { timestampRx := oldTs + spt; } else { timestampRx := read.ts - tsOffset; }
      if read.rxs != spt { lateControl := Terminate; }
      if firstRx {
        tsOffset := timestampRx;
        timestampRx := 0;
      } else if !resynch && timestampRx - oldTs != spt {
        tsOffset := tsOffset + (timestampRx - oldTs - spt);
        timestampRx := read.ts - tsOffset;
      }
      frameRx := FrameOfStamp(timestampRx, spt);
      ttiRx := TtiOfStamp(timestampRx, spt);
      if !firstRx {
        if ttiRx != subframe' { exited := true; }
        if frameRx != frame' { exited := true; }
      } else {
        firstRx := false;
        frame', subframe' := frameRx, ttiRx;
      }
    }

    /** `tx_rf` for the device write: the flag written, if any, and the device time it is written for.
        `short` is whether the device accepted fewer samples than offered. */
    method TxRf(duplex: Duplex, sf: SfType, prev: SfType, timestamp: int, sfExtension: nat, short: bool,
                writeThread: bool)
      returns (written: Option<Flag>, at: int)
      modifies this`lateControl
      ensures sf == UL ==> written == None && lateControl == old(lateControl)
      ensures sf != UL ==>
        (lateControl, [written]) == Step(old(lateControl), Tx(BaseFlag(duplex, sf, prev), short), writeThread)
      ensures sf != UL && old(lateControl) == Normal ==>
        written == Some(if sf == S then BurstEnd else if duplex == TDD && prev == UL then BurstStart else BurstMiddle)
      ensures sf != UL && old(lateControl) == Restart ==> written == Some(BurstStart)
      ensures sf != UL && old(lateControl) in {Normal, Restart} ==>
        lateControl == if short && !writeThread then Terminate else Normal
      ensures sf != UL && old(lateControl) == Terminate ==> written == Some(BurstEndNoTimeSpec) && lateControl == Stop1
      ensures sf != UL && old(lateControl) == Stop1 ==> written == None && lateControl == Stop2
      ensures sf != UL && old(lateControl) == Stop2 ==> written == None && lateControl == Restart
      ensures written.Some? ==>
        at + (if duplex == TDD && sf == DL && prev == UL then sfExtension - sfExtension % 8 else 0)
        == timestamp + tsOffset
    {
      written, at := None, 0;
      if sf == DL || sf == S {
        var flags := BurstMiddle;
        var extension := 0;
        if sf == S { flags := BurstEnd; }
        if duplex == TDD && sf == DL && prev == UL {
          flags := BurstStart;
          extension := sfExtension;
        }
        extension := extension - extension % 8;
        if lateControl != Normal {
          match lateControl {
            case Terminate =>
              flags := BurstEndNoTimeSpec;
              lateControl := Stop1;
            case Stop1 =>
              lateControl := Stop2;
              return;
            case Stop2 =>
              lateControl := Restart;
              return;
            case Restart =>
              flags := BurstStart;
              lateControl := Normal;
          }
        }
        written, at := Some(flags), timestamp + tsOffset - extension;
        if !writeThread && short && lateControl == Normal {
          lateControl := Terminate;
        }
      }
    }
  }
}
