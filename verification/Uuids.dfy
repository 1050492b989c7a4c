/** UUIDs: both halves are byte-reversed between memory and the wire. */
module Uuids {
  import opened Bytes
  import opened Types

  function Flipped(u: seq<Byte>): (r: seq<Byte>)
    requires |u| == 16
    ensures |r| == 16
  {
    Reverse(u[..8]) + Reverse(u[8..])
  }

  lemma FlippedAt(u: seq<Byte>, k: nat)
    requires |u| == 16 && k < 16
    ensures Flipped(u)[k] == if k < 8 then u[7 - k] else u[23 - k]
  {
    if k < 8 {
      ReverseAt(u[..8], k);
    } else {
      ReverseAt(u[8..], k - 8);
    }
  }

  lemma FlippedIs(u: seq<Byte>, r: seq<Byte>)
    requires |u| == |r| == 16
    requires forall k :: 0 <= k < 8 ==> r[k] == u[7 - k]
    requires forall k :: 8 <= k < 16 ==> r[k] == u[23 - k]
    ensures r == Flipped(u)
  {
    forall k: nat | k < 16 ensures r[k] == Flipped(u)[k] {
      FlippedAt(u, k);
    }
  }

  /** The eight bytes at base, swapped end for end except for the outer i + 1 on each side. */
  function Swapped(u: seq<Byte>, base: nat, i: int): (r: seq<Byte>)
    requires |u| == 16 && base <= 8 && i >= -1
    ensures |r| == 16
  {
    seq(16, k requires 0 <= k < 16 => if base + i < k < base + 7 - i then u[2 * base + 7 - k] else u[k])
  }

  /** One swap, the next pair further out. */
  lemma SwapStep(u: seq<Byte>, base: nat, i: nat)
    requires |u| == 16 && (base == 0 || base == 8) && i <= 3
    ensures var s := Swapped(u, base, i);
            s[base + i := s[base + 7 - i]][base + 7 - i := s[base + i]] == Swapped(u, base, i - 1)
  {}

  lemma FlippedTwice(u: seq<Byte>)
    requires |u| == 16
    ensures Flipped(Flipped(u)) == u
  {
    forall k: nat | k < 16 ensures Flipped(Flipped(u))[k] == u[k] {
      FlippedAt(Flipped(u), k);
      FlippedAt(u, if k < 8 then 7 - k else 23 - k);
    }
  }

  class Uuid {
    const UUID: array<Byte>

    ghost predicate Valid()
      reads this
    {
      UUID.Length == 16
    }

    constructor (u: seq<Byte>)
      requires |u| == 16
      ensures Valid() && fresh(UUID) && UUID[..] == u
    {
      UUID := new Byte[16](i requires 0 <= i < 16 => u[i]);
      new;
      assert UUID[..] == u;
    }

    /** Swaps in place, each half from its middle outwards. */
    method Flip()
      requires Valid()
      modifies UUID
      ensures UUID[..] == Flipped(old(UUID[..]))
    {
      ghost var was := UUID[..];
      var i := 3;
      while i >= 0
        invariant -1 <= i <= 3
        invariant UUID[..] == Swapped(was, 0, i)
      {
        var opp := 7 - i;
        SwapStep(was, 0, i);
        UUID[i], UUID[opp] := UUID[opp], UUID[i];
        i := i - 1;
      }
      ghost var half := UUID[..];
      i := 3;
      while i >= 0
        invariant -1 <= i <= 3
        invariant UUID[..] == Swapped(half, 8, i)
      {
        var opp := 15 - i;
        SwapStep(half, 8, i);
        UUID[i + 8], UUID[opp] := UUID[opp], UUID[i + 8];
        i := i - 1;
      }
      FlippedIs(was, UUID[..]);
    }

    /** Flips the receiver and leaves it flipped. */
    method MarshalMsgpack() returns (b: seq<Byte>)
      requires Valid()
      modifies UUID
      ensures b == Flipped(old(UUID[..])) && UUID[..] == b
    {
      Flip();
      b := UUID[..];
    }

    /** Fills the receiver with what there is; only a full sixteen bytes are flipped. */
    method UnmarshalMsgpack(b: seq<Byte>) returns (err: Option<Error>)
      requires Valid()
      modifies UUID
      ensures err.None? <==> |b| >= 16
      ensures |b| >= 16 ==> UUID[..] == Flipped(b[..16])
      ensures |b| < 16 ==> UUID[..] == b + old(UUID[|b|..])
    {
      ghost var was := UUID[..];
      var n := if |b| < 16 then |b| else 16;
      for i := 0 to n
        invariant forall k :: 0 <= k < i ==> UUID[k] == b[k]
        invariant forall k :: i <= k < 16 ==> UUID[k] == was[k]
      {
        UUID[i] := b[i];
      }
      if |b| < 16 {
        assert UUID[..] == b + was[|b|..];
        return Some(ShortUuid);
      }
      assert UUID[..] == b[..16];
      Flip();
      err := None;
    }
  }

  /** A marshalled UUID unmarshals to the original; marshalling the same receiver again writes the wrong byte order. */
  method MarshalTwice(u: seq<Byte>) returns (read: seq<Byte>, second: seq<Byte>)
    requires |u| == 16
    ensures read == u && second == u
  {
    var sender := new Uuid(u);
    var wire := sender.MarshalMsgpack();
    var receiver := new Uuid(wire);
    var err := receiver.UnmarshalMsgpack(wire);
    assert wire[..16] == wire;
    FlippedTwice(u);
    read := receiver.UUID[..];
    second := sender.MarshalMsgpack();
  }
}
