/** The six bytes a device answers DFU_GETSTATUS with (USB DFU 1.1, section 6.1.2),
    and what the host makes of them. */
module StatusPackets {
  import opened Bytes
  import opened DfuMachine

  const PACKET_LENGTH: int := 6
  const DEFAULT_POLLTIMEOUT: nat := 5

  /** A status as the host keeps it, states as numbers. */
  datatype RawStatus = RawStatus(bStatus: nat, bwPollTimeout: nat, bState: nat, iString: nat)

  function StateCode(s: State): nat {
    match s
    case AppIdle => 0
    case AppDetach => 1
    case DfuIdle => 2
    case DnloadSync => 3
    case DnBusy => 4
    case DnloadIdle => 5
    case ManifestSync => 6
    case Manifest => 7
    case ManifestWaitReset => 8
    case UploadIdle => 9
    case Error => 10
  }

  /** The status after a transfer of `result` bytes into the buffer: the packet, or
      the defaults if it is not a whole packet. With the quirk the device's own
      timeout is ignored. */
  function Decode(buffer: seq<bv8>, result: int, quirk: bool): RawStatus
    requires |buffer| == PACKET_LENGTH
  {
    if result == PACKET_LENGTH then
      RawStatus(ToInt(buffer[0]),
                if quirk then DEFAULT_POLLTIMEOUT
                else 0x1_0000 * ToInt(buffer[3]) + 0x100 * ToInt(buffer[2]) + ToInt(buffer[1]),
                ToInt(buffer[4]), ToInt(buffer[5]))
    else RawStatus(STATUS_ERR_UNKNOWN, 0, StateCode(Error), 0)
  }

  /** The packet a device sends. */
  function Packet(s: StatusReply, iString: nat): (p: seq<bv8>)
    ensures |p| == PACKET_LENGTH
  {
    [FromInt(s.bStatus), FromInt(s.bwPollTimeout), FromInt(s.bwPollTimeout / 0x100),
     FromInt(s.bwPollTimeout / 0x1_0000), FromInt(StateCode(s.bState)), FromInt(iString)]
  }

  lemma ThreeDigits(n: nat)
    requires n < 0x100_0000
    ensures n == 0x1_0000 * (n / 0x1_0000 % 256) + 0x100 * (n / 0x100 % 256) + n % 256
  {
    assert n / 0x1_0000 == n / 0x100 / 256;
  }

  lemma TimeoutReadBack(n: nat)
    requires n < 0x100_0000
    ensures 0x1_0000 * ToInt(FromInt(n / 0x1_0000)) + 0x100 * ToInt(FromInt(n / 0x100)) + ToInt(FromInt(n)) == n
  {
    hide ToInt, FromInt;
    FromIntToInt(n);
    FromIntToInt(n / 0x100);
    FromIntToInt(n / 0x1_0000);
    ThreeDigits(n);
  }

  lemma StateCodesDiffer(s: State, t: State)
    ensures StateCode(s) == StateCode(t) <==> s == t
    ensures StateCode(s) < 256
  {
  }

  /** A whole packet says what the device said, up to the quirk; anything shorter
      says what the host assumes of an unread status. States are told apart. */
  lemma StatusReadBack(s: StatusReply, iString: nat, quirk: bool, result: int, t: State)
    requires s.bStatus < 256 && s.bwPollTimeout < 0x100_0000 && iString < 256
    ensures var r := Decode(Packet(s, iString), result, quirk);
            if result == 6
            then r == RawStatus(s.bStatus, if quirk then 5 else s.bwPollTimeout, StateCode(s.bState), iString)
            else r == RawStatus(0x0e, 0, StateCode(Error), 0)
                 && r.bStatus == NO_STATUS.bStatus && r.bwPollTimeout == NO_STATUS.bwPollTimeout
                 && NO_STATUS.bState == Error
    ensures StateCode(s.bState) == StateCode(t) <==> s.bState == t
  {
    hide ToInt, FromInt, StateCode;
    StateCodesDiffer(s.bState, t);
    FromIntToInt(s.bStatus);
    TimeoutReadBack(s.bwPollTimeout);
    FromIntToInt(StateCode(s.bState));
    FromIntToInt(iString);
  }

  /** The states are numbered from 0 in the order of the standard. */
  lemma StatesInOrder(s: State)
    ensures StateCode(s) <= 10
    ensures [AppIdle, AppDetach, DfuIdle, DnloadSync, DnBusy, DnloadIdle, ManifestSync, Manifest, ManifestWaitReset,
             UploadIdle, Error][StateCode(s)] == s
  {
  }

  /** The packet of an idle device, and of one that has refused a request; the timeout has its low
      byte first. */
  lemma PacketInBytes(m: Machine, n: nat)
    requires n < 0x100_0000
    ensures Packet(StatusReply(STATUS_OK, 0, DfuIdle), 0) == [0, 0, 0, 0, 2, 0]
    ensures var stalled := m.(state := DnloadIdle).Stall();
            Packet(StatusReply(stalled.status, 0, stalled.state), 0) == [0x0f, 0, 0, 0, 10, 0]
    ensures var p := Packet(StatusReply(STATUS_OK, n, DnBusy), 0);
            p[4] == 4 && LowFirst(p[1..4]) == n
  {
    SmallBytes();
    hide ToInt, FromInt, LowFirst;
    TimeoutReadBack(n);
    ThreeValue(Packet(StatusReply(STATUS_OK, n, DnBusy), 0)[1..4]);
  }

  lemma SmallBytes()
    ensures FromInt(0) == 0 && FromInt(2) == 2 && FromInt(4) == 4 && FromInt(10) == 10 && FromInt(0x0f) == 0x0f
  {
    hide FromInt;
    FromIntIs(0, 0);
    FromIntIs(2, 2);
    FromIntIs(4, 4);
    FromIntIs(10, 10);
    FromIntIs(0x0f, 0x0f);
  }
}
