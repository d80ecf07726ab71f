/**
 The answer to an online query: one bit for each queried id, packed into bytes with the most
 significant bit first (`query_online_states_` in src/rendezvous_mediator.rs).
 */
module OnlineBitmap {
  import opened Options

  /** Bit `i` of the bitmap, as the code tests it. */
  predicate BitAt(states: seq<bv8>, i: nat)
    requires i / 8 < |states|
  {
    var mask: bv8 := 1 << (7 - i % 8);
    states[i / 8] & mask == mask
  }

  /** The first `n` bits of the bitmap. */
  function Unpack(states: seq<bv8>, n: nat): (bits: seq<bool>)
    requires n <= 8 * |states|
    ensures |bits| == n && forall i :: 0 <= i < n ==> bits[i] == BitAt(states, i)
  {
    seq(n, i requires 0 <= i < n => BitAt(states, i))
  }

  /** The ids among the first `n` whose bit is `want`, in order. */
  function Select<Id>(ids: seq<Id>, bits: seq<bool>, n: nat, want: bool): seq<Id>
    requires n <= |ids| && n <= |bits|
  {
    if n == 0 then []
    else
      var rest := Select(ids, bits, n - 1, want);
      if bits[n - 1] == want then rest + [ids[n - 1]] else rest
  }

  /** The loop; `None` stands for the panic on a bitmap that is too short. */
  method Partition<Id>(ids: seq<Id>, states: seq<bv8>) returns (r: Option<(seq<Id>, seq<Id>)>)
    ensures r.Some? <==> |ids| <= 8 * |states|
    ensures r.Some? ==> r.value.0 == Select(ids, Unpack(states, |ids|), |ids|, true)
    ensures r.Some? ==> r.value.1 == Select(ids, Unpack(states, |ids|), |ids|, false)
  {
    var onlines, offlines := [], [];
    ghost var bits := Unpack(states, if |ids| <= 8 * |states| then |ids| else 8 * |states|);
    for i := 0 to |ids|
      invariant i <= |bits|
      invariant onlines == Select(ids, bits, i, true)
      invariant offlines == Select(ids, bits, i, false)
    {
      if i / 8 >= |states| {
        return None;
      }
      assert bits[i] == BitAt(states, i);
      if BitAt(states, i) {
        onlines := onlines + [ids[i]];
      } else {
        offlines := offlines + [ids[i]];
      }
    }
    r := Some((onlines, offlines));
  }

  // ----- an order-preserving partition

  /** `xs` is what remains of `ids` at the increasing positions `at`. */
  ghost predicate IsSubsequence<Id>(xs: seq<Id>, ids: seq<Id>, at: seq<nat>) {
    && |at| == |xs|
    && (forall k :: 0 <= k < |at| ==> at[k] < |ids| && xs[k] == ids[at[k]])
    && (forall j, k :: 0 <= j < k < |at| ==> at[j] < at[k])
  }

  /** The positions below `n` whose bit is `want`. */
  ghost function Positions(bits: seq<bool>, n: nat, want: bool): seq<nat>
    requires n <= |bits|
  {
    if n == 0 then []
    else
      var rest := Positions(bits, n - 1, want);
      if bits[n - 1] == want then rest + [n - 1] else rest
  }

  lemma {:induction false} PositionsSpec(bits: seq<bool>, n: nat, want: bool)
    requires n <= |bits|
    ensures var at := Positions(bits, n, want);
            && (forall k :: 0 <= k < |at| ==> at[k] < n)
            && (forall i :: 0 <= i < n ==> (i in at <==> bits[i] == want))
  {
    if n > 0 {
      PositionsSpec(bits, n - 1, want);
    }
  }

  lemma {:induction false} SelectAtPositions<Id>(ids: seq<Id>, bits: seq<bool>, n: nat, want: bool)
    requires n <= |ids| && n <= |bits|
    ensures IsSubsequence(Select(ids, bits, n, want), ids, Positions(bits, n, want))
  {
    if n > 0 {
      SelectAtPositions(ids, bits, n - 1, want);
      PositionsSpec(bits, n - 1, want);
    }
  }

  lemma {:induction false} NothingLost<Id>(ids: seq<Id>, bits: seq<bool>, n: nat)
    requires n <= |ids| && n <= |bits|
    ensures |Select(ids, bits, n, true)| + |Select(ids, bits, n, false)| == n
  {
    if n > 0 {
      NothingLost(ids, bits, n - 1);
    }
  }

  /**
   Both lists are in the order of the ids; an id stands in the one exactly if its bit is set and in
   the other exactly if it is not; and no id stands twice.
   */
  lemma PartitionIsExact<Id>(ids: seq<Id>, bits: seq<bool>)
    requires |ids| == |bits|
    ensures var n := |ids|;
            var on, off := Select(ids, bits, n, true), Select(ids, bits, n, false);
            && IsSubsequence(on, ids, Positions(bits, n, true))
            && IsSubsequence(off, ids, Positions(bits, n, false))
            && (forall i :: 0 <= i < n ==> (i in Positions(bits, n, true) <==> bits[i]))
            && (forall i :: 0 <= i < n ==> (i in Positions(bits, n, false) <==> !bits[i]))
            && |on| + |off| == n
  {
    SelectAtPositions(ids, bits, |ids|, true);
    SelectAtPositions(ids, bits, |ids|, false);
    PositionsSpec(bits, |ids|, true);
    PositionsSpec(bits, |ids|, false);
    NothingLost(ids, bits, |ids|);
  }

  // ----- the inverse: packing bits

  function Bit(bits: seq<bool>, i: nat, mask: bv8): bv8 {
    if i < |bits| && bits[i] then mask else 0
  }

  function PackByte(bits: seq<bool>): bv8 {
    Bit(bits, 0, 128) | Bit(bits, 1, 64) | Bit(bits, 2, 32) | Bit(bits, 3, 16)
    | Bit(bits, 4, 8) | Bit(bits, 5, 4) | Bit(bits, 6, 2) | Bit(bits, 7, 1)
  }

  function Pack(bits: seq<bool>): seq<bv8> {
    if |bits| <= 8 then [PackByte(bits)] else [PackByte(bits[..8])] + Pack(bits[8..])
  }

  lemma MaskOfByte(b0: bv8, b1: bv8, b2: bv8, b3: bv8, b4: bv8, b5: bv8, b6: bv8, b7: bv8)
    requires (b0 == 0 || b0 == 128) && (b1 == 0 || b1 == 64) && (b2 == 0 || b2 == 32) && (b3 == 0 || b3 == 16)
    requires (b4 == 0 || b4 == 8) && (b5 == 0 || b5 == 4) && (b6 == 0 || b6 == 2) && (b7 == 0 || b7 == 1)
    ensures var b := b0 | b1 | b2 | b3 | b4 | b5 | b6 | b7;
            && b & 128 == b0 && b & 64 == b1 && b & 32 == b2 && b & 16 == b3
            && b & 8 == b4 && b & 4 == b5 && b & 2 == b6 && b & 1 == b7
  {
  }

  function Mask(i: nat): bv8
    requires i < 8
  {
    if i == 0 then 128 else if i == 1 then 64 else if i == 2 then 32 else if i == 3 then 16
    else if i == 4 then 8 else if i == 5 then 4 else if i == 6 then 2 else 1
  }

  lemma MaskIsShift(i: nat)
    requires i < 8
    ensures Mask(i) == 1 << (7 - i)
  {
  }

  lemma BitOfByte(bits: seq<bool>, i: nat)
    requires i < 8 && i < |bits|
    ensures PackByte(bits) & Mask(i) == Mask(i) <==> bits[i]
  {
    MaskOfByte(Bit(bits, 0, 128), Bit(bits, 1, 64), Bit(bits, 2, 32), Bit(bits, 3, 16),
               Bit(bits, 4, 8), Bit(bits, 5, 4), Bit(bits, 6, 2), Bit(bits, 7, 1));
  }

  lemma BitOfFirst(bits: seq<bool>, rest: seq<bv8>, i: nat)
    requires i < 8 && i < |bits|
    ensures BitAt([PackByte(bits)] + rest, i) <==> bits[i]
  {
    MaskIsShift(i);
    BitOfByte(bits, i);
  }

  lemma BitOfRest(b: bv8, rest: seq<bv8>, i: nat)
    requires 8 <= i && (i - 8) / 8 < |rest|
    ensures i / 8 < |[b] + rest|
    ensures BitAt([b] + rest, i) <==> BitAt(rest, i - 8)
  {
    assert i / 8 == (i - 8) / 8 + 1 && i % 8 == (i - 8) % 8;
  }

  lemma {:induction false} BitOfPack(bits: seq<bool>, i: nat)
    requires i < |bits| && i / 8 < |Pack(bits)|
    ensures BitAt(Pack(bits), i) <==> bits[i]
    decreases |bits|
  {
    if |bits| <= 8 {
      BitOfFirst(bits, [], i);
      assert [PackByte(bits)] + [] == Pack(bits);
    } else if i < 8 {
      BitOfFirst(bits[..8], Pack(bits[8..]), i);
    } else {
      var rest := Pack(bits[8..]);
      PackLength(bits[8..]);
      ByteIndex(i - 8, |bits| - 8, |rest|);
      BitOfPack(bits[8..], i - 8);
      BitOfRest(PackByte(bits[..8]), rest, i);
    }
  }

  lemma ByteIndex(i: nat, n: nat, bytes: nat)
    requires i < n <= 8 * bytes
    ensures i / 8 < bytes
  {
  }

  /** Unpacking returns what was packed, so the code reads the bits in the packer's order. */
  lemma UnpackPack(bits: seq<bool>)
    ensures |bits| <= 8 * |Pack(bits)|
    ensures Unpack(Pack(bits), |bits|) == bits
  {
    PackLength(bits);
    forall i | 0 <= i < |bits| ensures i / 8 < |Pack(bits)| && BitAt(Pack(bits), i) == bits[i] {
      ByteIndex(i, |bits|, |Pack(bits)|);
      BitOfPack(bits, i);
    }
  }

  lemma {:induction false} PackLength(bits: seq<bool>)
    ensures |bits| <= 8 * |Pack(bits)|
  {
    if |bits| > 8 {
      PackLength(bits[8..]);
    }
  }

  /** The first id is the highest bit of the first byte, the ninth that of the second. */
  lemma HighestBitFirst()
    ensures Unpack([0x80, 0x41], 16) == [true, false, false, false, false, false, false, false,
                                         false, true, false, false, false, false, false, true]
  {
    FirstByte([0x80, 0x41]);
    SecondByte([0x80, 0x41]);
  }

  lemma FirstByte(s: seq<bv8>)
    requires |s| == 2 && s[0] == 0x80
    ensures BitAt(s, 0) && !BitAt(s, 1) && !BitAt(s, 2) && !BitAt(s, 3)
    ensures !BitAt(s, 4) && !BitAt(s, 5) && !BitAt(s, 6) && !BitAt(s, 7)
  {
  }

  lemma SecondByte(s: seq<bv8>)
    requires |s| == 2 && s[1] == 0x41
    ensures !BitAt(s, 8) && BitAt(s, 9) && !BitAt(s, 10) && !BitAt(s, 11)
    ensures !BitAt(s, 12) && !BitAt(s, 13) && !BitAt(s, 14) && BitAt(s, 15)
  {
  }
}
