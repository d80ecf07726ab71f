/**
 The hand-off of decoded frames to the user interface, without texture rendering (src/flutter.rs).
 The decoder swaps its buffer with the slot of the display when the slot is free; the interface
 reads the slot until it asks for the next frame.
 */
module FrameSlots {
  import opened Options

  type Buffer = seq<int>

  datatype Slot = Slot(data: Buffer, valid: bool)

  type Slots = map<int, Slot>

  /** The buffer in the slot; a new slot starts with an empty one. */
  function Data(slots: Slots, d: int): Buffer {
    if d in slots then slots[d].data else []
  }

  predicate Busy(slots: Slots, d: int) {
    d in slots && slots[d].valid
  }

  /** What `on_rgba` leaves in the slots, and the buffer it hands back to the decoder. */
  function Offer(slots: Slots, d: int, frame: Buffer): (Slots, Buffer) {
    if Busy(slots, d) then (slots, frame)
    else (slots[d := Slot(frame, true)], Data(slots, d))
  }

  function Fetch(slots: Slots, d: int): Option<Buffer> {
    if Busy(slots, d) then Some(slots[d].data) else None
  }

  function Free(slots: Slots, d: int): Slots {
    if d in slots then slots[d := slots[d].(valid := false)] else slots
  }

  // ----- as the code runs it

  class ImageRgb {
    var raw: Buffer
    constructor (raw: Buffer)
      ensures this.raw == raw
    {
      this.raw := raw;
    }
  }

  class FlutterHandler {
    var displayRgbas: Slots

    method OnRgba(display: int, rgba: ImageRgb) returns (notify: bool)
      modifies `displayRgbas, rgba
      ensures (displayRgbas, rgba.raw) == Offer(old(displayRgbas), display, old(rgba.raw))
      ensures notify == !Busy(old(displayRgbas), display)
    {
      if display in displayRgbas {
        var slot := displayRgbas[display];
        if slot.valid {
          return false;
        } else {
          slot := slot.(valid := true);
        }
        var tmp := rgba.raw;
        rgba.raw := slot.data;
        slot := slot.(data := tmp);
        displayRgbas := displayRgbas[display := slot];
      } else {
        var slot := Slot([], false);
        var tmp := rgba.raw;
        rgba.raw := slot.data;
        slot := slot.(data := tmp);
        slot := slot.(valid := true);
        displayRgbas := displayRgbas[display := slot];
      }
      notify := true;
    }

    /** `None` stands for the null pointer. */
    method GetRgba(display: int) returns (r: Option<Buffer>)
      ensures r == Fetch(displayRgbas, display)
    {
      r := None;
      if display in displayRgbas {
        if displayRgbas[display].valid {
          r := Some(displayRgbas[display].data);
        }
      }
    }

    method NextRgba(display: int)
      modifies `displayRgbas
      ensures displayRgbas == Free(old(displayRgbas), display)
    {
      if display in displayRgbas {
        displayRgbas := displayRgbas[display := displayRgbas[display].(valid := false)];
      }
    }
  }

  // ----- interleavings

  datatype Event = Decode(display: int, frame: Buffer) | Next(display: int) | Get(display: int)

  function Step(slots: Slots, e: Event): Slots {
    match e
    case Decode(d, frame) => Offer(slots, d, frame).0
    case Next(d) => Free(slots, d)
    case Get(_) => slots
  }

  function After(es: seq<Event>): Slots {
    if es == [] then map[] else Step(After(es[..|es| - 1]), es[|es| - 1])
  }

  /** The frame at position `i` is the first for its display since the interface last asked for one. */
  ghost predicate FirstSinceFree(es: seq<Event>, d: int, i: int) {
    && 0 <= i < |es| && es[i].Decode? && es[i].display == d
    && (forall k :: i < k < |es| ==> es[k] != Next(d))
    && (forall j :: 0 <= j < i && es[j].Decode? && es[j].display == d ==>
          exists k :: j < k < i && es[k] == Next(d))
  }

  /** No frame for the display has come since it was last freed. */
  ghost predicate NoneSinceFree(es: seq<Event>, d: int) {
    forall j :: 0 <= j < |es| && es[j].Decode? && es[j].display == d ==>
      exists k :: j < k < |es| && es[k] == Next(d)
  }

  lemma FirstStays(es: seq<Event>, e: Event, d: int, i: int)
    requires FirstSinceFree(es, d, i) && e != Next(d)
    ensures FirstSinceFree(es + [e], d, i)
  {
    var fs := es + [e];
    forall j | 0 <= j < i && fs[j].Decode? && fs[j].display == d
      ensures exists k :: j < k < i && fs[k] == Next(d)
    {
      var k :| j < k < i && es[k] == Next(d);
      assert fs[k] == Next(d);
    }
  }

  lemma NoneStays(es: seq<Event>, e: Event, d: int)
    requires e == Next(d) || (NoneSinceFree(es, d) && !(e.Decode? && e.display == d))
    ensures NoneSinceFree(es + [e], d)
  {
    var fs := es + [e];
    forall j | 0 <= j < |fs| && fs[j].Decode? && fs[j].display == d
      ensures exists k :: j < k < |fs| && fs[k] == Next(d)
    {
      if e == Next(d) {
        assert fs[|es|] == Next(d);
      } else {
        var k :| j < k < |es| && es[k] == Next(d);
        assert fs[k] == Next(d);
      }
    }
  }

  lemma FirstComes(es: seq<Event>, d: int, frame: Buffer)
    requires NoneSinceFree(es, d)
    ensures FirstSinceFree(es + [Decode(d, frame)], d, |es|)
  {
    var fs := es + [Decode(d, frame)];
    forall j | 0 <= j < |es| && fs[j].Decode? && fs[j].display == d
      ensures exists k :: j < k < |es| && fs[k] == Next(d)
    {
      var k :| j < k < |es| && es[k] == Next(d);
      assert fs[k] == Next(d);
    }
  }

  /**
   For every interleaving: what the interface can fetch is the first frame decoded since it freed
   the slot, and it can fetch nothing exactly if there was none.
   */
  lemma {:induction false} FetchIsFirst(es: seq<Event>, d: int) returns (i: int)
    ensures Fetch(After(es), d).None? ==> NoneSinceFree(es, d)
    ensures Fetch(After(es), d).Some? ==> FirstSinceFree(es, d, i) && Fetch(After(es), d).value == es[i].frame
  {
    i := 0;
    if es != [] {
      var front, e := es[..|es| - 1], es[|es| - 1];
      assert front + [e] == es;
      i := FetchIsFirst(front, d);
      var before, after := Fetch(After(front), d), Fetch(After(es), d);
      if e == Next(d) {
        NoneStays(front, e, d);
      } else if before.Some? {
        FirstStays(front, e, d, i);
      } else if e.Decode? && e.display == d {
        FirstComes(front, d, e.frame);
        i := |front|;
      } else {
        NoneStays(front, e, d);
      }
    }
  }

  /** A published frame stays as it is, buffer and all, until the interface asks for the next one. */
  lemma {:induction false} PublishedStays(es: seq<Event>, d: int, n: nat)
    requires n <= |es| && Busy(After(es[..n]), d)
    requires forall k :: n <= k < |es| ==> es[k] != Next(d)
    ensures d in After(es) && After(es)[d] == After(es[..n])[d]
  {
    if n == |es| {
      assert es[..n] == es;
    } else {
      var front := es[..|es| - 1];
      assert front[..n] == es[..n];
      PublishedStays(front, d, n);
    }
  }

  // ----- buffers are only passed around

  /** The buffers that the decoder has filled for the display, and those it got back. */
  function Filled(es: seq<Event>, d: int): multiset<Buffer> {
    if es == [] then multiset{}
    else
      var front, e := es[..|es| - 1], es[|es| - 1];
      if e.Decode? && e.display == d then Filled(front, d) + multiset{e.frame} else Filled(front, d)
  }

  function Returned(es: seq<Event>, d: int): multiset<Buffer> {
    if es == [] then multiset{}
    else
      var front, e := es[..|es| - 1], es[|es| - 1];
      if e.Decode? && e.display == d
      then Returned(front, d) + multiset{Offer(After(front), d, e.frame).1}
      else Returned(front, d)
  }

  lemma OfferSwaps(slots: Slots, d: int, frame: Buffer)
    ensures var x := Offer(slots, d, frame);
            multiset{x.1} + multiset{Data(x.0, d)} == multiset{Data(slots, d)} + multiset{frame}
  {
  }

  lemma Rebalance<T>(filled: multiset<T>, spare: multiset<T>, returned: multiset<T>, before: multiset<T>,
                     frame: multiset<T>, back: multiset<T>, after: multiset<T>)
    requires filled + spare == returned + before && back + after == before + frame
    ensures (filled + frame) + spare == (returned + back) + after
  {
    assert (filled + frame) + spare == (filled + spare) + frame;
    assert (returned + before) + frame == returned + (before + frame);
    assert returned + (back + after) == (returned + back) + after;
  }

  /** For every interleaving no buffer is lost and none is duplicated. */
  lemma {:induction false} BuffersConserved(es: seq<Event>, d: int)
    ensures Filled(es, d) + multiset{[]} == Returned(es, d) + multiset{Data(After(es), d)}
  {
    if es != [] {
      var front, e := es[..|es| - 1], es[|es| - 1];
      BuffersConserved(front, d);
      if e.Decode? && e.display == d {
        var x := Offer(After(front), d, e.frame);
        var before := multiset{Data(After(front), d)};
        OfferSwaps(After(front), d, e.frame);
        Rebalance(Filled(front, d), multiset{[]}, Returned(front, d), before,
                  multiset{e.frame}, multiset{x.1}, multiset{Data(x.0, d)});
      } else {
        assert Data(After(es), d) == Data(After(front), d);
      }
    }
  }
}
