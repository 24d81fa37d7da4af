/** The bytes of the loader's outgoing netboot messages, as the structs of
    include/netboot/netboot.h lay them out, with padding zero. */
module Wire {
  import opened Words
  import opened Frames
  import opened NetTrace
  import Netboot

  // vy_netboot_cmd_t
  const CMD_ADVERTISE: nat := 0
  const CMD_FILE_SEND_INIT: nat := 5
  const CMD_FILE_FRAGMENT: nat := 6
  const CMD_ACK: nat := 7

  /** A little-endian 64-bit field. */
  function Field(v: nat): (s: seq<byte>)
    ensures |s| == 8
  {
    seq(8, k requires 0 <= k => ByteOf(v, k))
  }

  /** A vy_netboot_message_t: command, length, and for an acknowledgement its type
      and a 64-bit number. */
  function Encode(o: Outgoing): seq<byte> {
    match o
    case Advertisement => Field(CMD_ADVERTISE) + Field(16)
    case AckMessage(InitAck) => Field(CMD_ACK) + Field(32) + Field(CMD_FILE_SEND_INIT) + Field(0)
    case AckMessage(FragmentAck(k)) => Field(CMD_ACK) + Field(32) + Field(CMD_FILE_FRAGMENT) + Field(k)
  }

  lemma {:induction false} BytesDetermine(v: nat, w: nat, n: nat)
    requires v < Pow2(8 * n) && w < Pow2(8 * n) && forall k | 0 <= k < n :: ByteOf(v, k) == ByteOf(w, k)
    ensures v == w
    decreases n
  {
    if n > 0 {
      EightBits(n);
      forall k | 0 <= k < n - 1 ensures ByteOf(v / 256, k) == ByteOf(w / 256, k) {
        assert ByteOf(v, k + 1) == ByteOf(w, k + 1);
      }
      assert ByteOf(v, 0) == ByteOf(w, 0);
      BytesDetermine(v / 256, w / 256, n - 1);
    } else {
      assert Pow2(8 * n) == 1;
    }
  }

  lemma EightBits(n: nat)
    requires n > 0
    ensures Pow2(8 * n) == 256 * Pow2(8 * (n - 1))
  {
    var p := Pow2(8 * n - 8);
    assert Pow2(8 * n - 7) == 2 * p;
    assert Pow2(8 * n - 6) == 4 * p;
    assert Pow2(8 * n - 5) == 8 * p;
    assert Pow2(8 * n - 4) == 16 * p;
    assert Pow2(8 * n - 3) == 32 * p;
    assert Pow2(8 * n - 2) == 64 * p;
    assert Pow2(8 * n - 1) == 128 * p;
  }

  lemma FieldInjective(v: u64, w: u64)
    requires Field(v) == Field(w)
    ensures v == w
  {
    hide ByteOf, Pow2;
    Pow2At40();
    forall k | 0 <= k < 8 ensures ByteOf(v, k) == ByteOf(w, k) { assert Field(v)[k] == Field(w)[k]; }
    BytesDetermine(v, w, 8);
  }

  /** The layout meets what is asked of `encode`: it fits, and the receiver of a
      message can tell what was acknowledged. */
  lemma EncodeIsCodec()
    ensures Codec(Encode)
  {
    hide Field;
    forall a ensures Encode(AckMessage(a)) != Encode(Advertisement) {
      assert |Encode(AckMessage(a))| == 32 && |Encode(Advertisement)| == 16;
    }
    forall a, b | SizeFits(a) && SizeFits(b) && Encode(AckMessage(a)) == Encode(AckMessage(b)) ensures a == b {
      AckInjective(a, b);
    }
  }

  lemma AckInjective(a: Netboot.Ack, b: Netboot.Ack)
    requires SizeFits(a) && SizeFits(b) && Encode(AckMessage(a)) == Encode(AckMessage(b))
    ensures a == b
  {
    hide Field;
    var ta, tb := if a.InitAck? then CMD_FILE_SEND_INIT else CMD_FILE_FRAGMENT, if b.InitAck? then CMD_FILE_SEND_INIT else CMD_FILE_FRAGMENT;
    var ka, kb := if a.InitAck? then 0 else a.fragment, if b.InitAck? then 0 else b.fragment;
    LastFields(ta, ka);
    LastFields(tb, kb);
    FieldInjective(ta, tb);
    FieldInjective(ka, kb);
  }

  lemma LastFields(t: nat, k: nat)
    ensures var s := Field(CMD_ACK) + Field(32) + Field(t) + Field(k); s[16..24] == Field(t) && s[24..] == Field(k)
  {
  }
}
