/**
 * The multi-string format of SCardListReaders and SCardListReaderGroups: NUL-terminated
 * strings packed back to back and closed by one more NUL. `Decode` is the meaning of the
 * decoding loop the two wrappers share; `DecodeMultiString` is that loop.
 */
module MultiString {
  import opened Native
  import opened Errors
  import opened Utf16

  /** Puts `xs` in front of a decoded list; a panic stays a panic. */
  function Prepend(xs: seq<seq<uint16>>, r: Result<seq<seq<uint16>>>): Result<seq<seq<uint16>>>
  {
    if r.Ok? then Ok(xs + r.value) else r
  }

  /**
   * One round of the loop cuts the buffer at its first NUL, keeps the segment before it unless
   * it is empty, and continues after the NUL; a remainder with no NUL makes data[pos+1:] run
   * past the end.
   */
  function Decode(data: seq<uint16>): (r: Result<seq<seq<uint16>>>)
    ensures !r.Err?
    decreases |data|
  {
    if |data| == 0 then Ok([])
    else
      var pos := IndexOfNul(data);
      if pos + 1 > |data| then Panicked(SliceBoundsOutOfRange)
      else Prepend(if data[0] != 0 then [data[..pos]] else [], Decode(data[pos + 1..]))
  }

  /** The decoding loop of ListReaders and ListReaderGroups, reassigning `data` as it goes. */
  method DecodeMultiString(buffer: seq<uint16>) returns (r: Result<seq<seq<uint16>>>)
    ensures r == Decode(buffer)
  {
    var data := buffer;
    var readers: seq<seq<uint16>> := [];
    PrependNothing(Decode(buffer));
    while |data| > 0
      invariant Decode(buffer) == Prepend(readers, Decode(data))
      decreases |data|
    {
      var pos := 0;
      while pos < |data|
        invariant 0 <= pos <= |data|
        invariant forall i :: 0 <= i < pos ==> data[i] != 0
      {
        if data[pos] == 0 {
          break;
        }
        pos := pos + 1;
      }
      IndexOfNulUnique(data, pos);
      var segment := if data[0] != 0 then [data[..pos]] else [];
      if pos + 1 > |data| {
        return Panicked(SliceBoundsOutOfRange);
      }
      var rest := Decode(data[pos + 1..]);
      assert rest.Ok? ==> (readers + segment) + rest.value == readers + (segment + rest.value);
      readers := readers + segment;
      data := data[pos + 1..];
    }
    assert readers + [] == readers;
    return Ok(readers);
  }

  lemma PrependNothing(r: Result<seq<seq<uint16>>>)
    ensures Prepend([], r) == r
  {
    if r.Ok? {
      assert [] + r.value == r.value;
    }
  }

  /** Each string followed by its NUL. */
  function Join(xs: seq<seq<uint16>>): seq<uint16>
  {
    if xs == [] then [] else xs[0] + [0] + Join(xs[1..])
  }

  /** The multi-string holding `xs`: the strings, each NUL-terminated, then the closing NUL. */
  function Encode(xs: seq<seq<uint16>>): seq<uint16>
  {
    Join(xs) + [0]
  }

  /** What the decoder accepts as one entry: a non-empty string without NUL. */
  predicate IsEntry(s: seq<uint16>)
  {
    s != [] && 0 !in s
  }

  /** An empty segment (a bare NUL) yields no entry. */
  lemma DecodeSkipsEmpty(rest: seq<uint16>)
    ensures Decode([0] + rest) == Decode(rest)
  {
    var data := [0] + rest;
    IndexOfNulUnique(data, 0);
    assert data[1..] == rest;
    PrependNothing(Decode(rest));
  }

  /** A non-empty NUL-free segment followed by its NUL yields exactly that entry, in front. */
  lemma DecodeSegment(s: seq<uint16>, rest: seq<uint16>)
    requires IsEntry(s)
    ensures Decode(s + [0] + rest) == Prepend([s], Decode(rest))
  {
    var data := s + [0] + rest;
    IndexOfNulUnique(data, |s|);
    assert data[..|s|] == s;
    assert data[|s| + 1..] == rest;
  }

  /** The buffer makes the loop panic exactly when it is non-empty and does not end in NUL. */
  lemma {:induction false} DecodePanicsIff(data: seq<uint16>)
    ensures Decode(data).Panicked? <==> |data| > 0 && data[|data| - 1] != 0
    decreases |data|
  {
    if |data| > 0 {
      var pos := IndexOfNul(data);
      if pos + 1 <= |data| {
        var rest := data[pos + 1..];
        DecodePanicsIff(rest);
        var segment := if data[0] != 0 then [data[..pos]] else [];
        assert Decode(data) == Prepend(segment, Decode(rest));
        assert Decode(data).Panicked? <==> Decode(rest).Panicked?;
        if |rest| > 0 {
          assert rest[|rest| - 1] == data[|data| - 1];
        } else {
          assert data[|data| - 1] == data[pos] == 0;
        }
      } else {
        assert Decode(data) == Panicked(SliceBoundsOutOfRange);
        assert data[|data| - 1] != 0;
      }
    }
  }

  /** Every decoded entry is non-empty and free of NUL. */
  lemma {:induction false} DecodeEntries(data: seq<uint16>)
    requires Decode(data).Ok?
    ensures forall s :: s in Decode(data).value ==> IsEntry(s)
    decreases |data|
  {
    if |data| > 0 {
      var pos := IndexOfNul(data);
      DecodeEntries(data[pos + 1..]);
    }
  }

  /** Round trip: encoding valid entries and decoding gives them back; no entries is a lone NUL. */
  lemma {:induction false} DecodeEncode(xs: seq<seq<uint16>>)
    requires forall s :: s in xs ==> IsEntry(s)
    ensures Decode(Encode(xs)) == Ok(xs)
    ensures xs == [] ==> Encode(xs) == [0]
  {
    if xs == [] {
      DecodeSkipsEmpty([]);
    } else {
      var head, tail := xs[0], xs[1..];
      assert head in xs;
      assert forall s :: s in tail ==> s in xs;
      DecodeEncode(tail);
      EncodeCons(xs);
      DecodeSegment(head, Encode(tail));
      assert [head] + tail == xs;
    }
  }

  /** The multi-string of a non-empty list is its first entry, a NUL, then the rest's multi-string. */
  lemma EncodeCons(xs: seq<seq<uint16>>)
    requires xs != []
    ensures Encode(xs) == xs[0] + [0] + Encode(xs[1..])
  {
    assert Encode(xs) == xs[0] + [0] + Join(xs[1..]) + [0];
  }

  /** Prepending twice is prepending the concatenation. */
  lemma PrependPrepend(xs: seq<seq<uint16>>, ys: seq<seq<uint16>>, r: Result<seq<seq<uint16>>>)
    ensures Prepend(xs, Prepend(ys, r)) == Prepend(xs + ys, r)
  {
    if r.Ok? {
      assert xs + (ys + r.value) == (xs + ys) + r.value;
    }
  }

  /**
   * Order: a NUL-terminated prefix decodes on its own, and its entries come before those of
   * whatever follows it.
   */
  lemma {:induction false} DecodeConcat(a: seq<uint16>, b: seq<uint16>)
    requires a == [] || a[|a| - 1] == 0
    ensures Decode(a).Ok?
    ensures Decode(a + b) == Prepend(Decode(a).value, Decode(b))
    decreases |a|
  {
    DecodePanicsIff(a);
    if a == [] {
      assert a + b == b;
      PrependNothing(Decode(b));
    } else {
      var pos := IndexOfNul(a);
      var rest := a[pos + 1..];
      var segment := if a[0] != 0 then [a[..pos]] else [];
      DecodeConcat(rest, b);
      DecodeStep(a, b, pos);
      assert Decode(a) == Prepend(segment, Decode(rest));
      PrependPrepend(segment, Decode(rest).value, Decode(b));
    }
  }

  /** One round of the loop on a + b, when the first NUL lies inside a. */
  lemma DecodeStep(a: seq<uint16>, b: seq<uint16>, pos: nat)
    requires pos < |a| && pos == IndexOfNul(a)
    ensures Decode(a + b) == Prepend(if a[0] != 0 then [a[..pos]] else [], Decode(a[pos + 1..] + b))
  {
    var ab := a + b;
    IndexOfNulUnique(ab, pos);
    assert ab[..pos] == a[..pos];
    assert ab[pos + 1..] == a[pos + 1..] + b;
  }
}
