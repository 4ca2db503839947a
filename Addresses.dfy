/** Program-derived addresses. An account address is identified with the
    byte string its seeds concatenate to: the hash and the bump search that
    turn that preimage into a 32-byte address are abstracted away, so two
    addresses are equal exactly when their preimages are. */
module Addresses {
  import opened Numerics

  /** A signer's public key: always 32 bytes. */
  type Pubkey = k: seq<byte> | |k| == 32 witness ZeroBytes()

  /** The address of a program account (the preimage of its derivation). */
  type Address = seq<byte>

  /** Thirty-two zero bytes. */
  function ZeroBytes(): seq<byte> {
    seq(32, _ => 0)
  }

  /** The bytes of the seed literal `b"event"`. */
  const EventTag: seq<byte> := [101, 118, 101, 110, 116]

  /** The bytes of the seed literal `b"attendance"`. */
  const AttendanceTag: seq<byte> := [97, 116, 116, 101, 110, 100, 97, 110, 99, 101]

  /** Seeds `[b"event", organizer, name.as_bytes()]`. */
  function EventAddress(organizer: Pubkey, name: seq<byte>): (a: Address)
    ensures |a| == |EventTag| + 32 + |name|
    ensures a[..|EventTag|] == EventTag
  {
    EventTag + organizer + name
  }

  /** Seeds `[b"attendance", event, attendee]`. */
  function AttendanceAddress(event: Address, attendee: Pubkey): (a: Address)
    ensures |a| == |AttendanceTag| + |event| + 32
    ensures a[..|AttendanceTag|] == AttendanceTag
  {
    AttendanceTag + event + attendee
  }

  /** The two derivations are domain-separated: their first bytes differ. */
  lemma EventAttendanceDisjoint(organizer: Pubkey, name: seq<byte>, event: Address, attendee: Pubkey)
    ensures EventAddress(organizer, name) != AttendanceAddress(event, attendee)
  {
    assert EventAddress(organizer, name)[0] == 101;
    assert AttendanceAddress(event, attendee)[0] == 97;
  }

  /** The organizer key has a fixed width, so the event address determines
      both the organizer and the name. */
  lemma EventAddressInjective(o1: Pubkey, n1: seq<byte>, o2: Pubkey, n2: seq<byte>)
    ensures EventAddress(o1, n1) == EventAddress(o2, n2) <==> o1 == o2 && n1 == n2
  {
    var a1, a2 := EventAddress(o1, n1), EventAddress(o2, n2);
    if a1 == a2 {
      assert o1 == a1[5..37] == a2[5..37] == o2;
      assert n1 == a1[37..] == a2[37..] == n2;
    }
  }

  /** The attendee key has a fixed width and the tag a fixed length, so the
      attendance address determines both the event and the attendee. */
  lemma AttendanceAddressInjective(e1: Address, p1: Pubkey, e2: Address, p2: Pubkey)
    ensures AttendanceAddress(e1, p1) == AttendanceAddress(e2, p2) <==> e1 == e2 && p1 == p2
  {
    var a1, a2 := AttendanceAddress(e1, p1), AttendanceAddress(e2, p2);
    if a1 == a2 {
      var n := |a1|;
      assert p1 == a1[n - 32..] == a2[n - 32..] == p2;
      assert e1 == a1[10..n - 32] == a2[10..n - 32] == e2;
    }
  }
}
