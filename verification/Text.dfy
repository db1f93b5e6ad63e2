/** The text section of the code generators: words and a cursor. */
module Text {

  /** A sequence after the word at index i has been stored, growing by one at the end. */
  function Put(data: seq<bv32>, i: nat, w: bv32): seq<bv32>
    requires i <= |data|
  {
    if i < |data| then data[i := w] else data + [w]
  }

  /** `before` with the words ws stored from index i on. */
  function PutAll(before: seq<bv32>, i: nat, ws: seq<bv32>): seq<bv32>
    requires i <= |before|
  {
    if i + |ws| <= |before| then before[..i] + ws + before[i + |ws|..] else before[..i] + ws
  }

  lemma PutAllNext(before: seq<bv32>, i: nat, ws: seq<bv32>, w: bv32)
    requires i <= |before|
    ensures i + |ws| <= |PutAll(before, i, ws)|
    ensures Put(PutAll(before, i, ws), i + |ws|, w) == PutAll(before, i, ws + [w])
  {
  }

  lemma PutAllOne(before: seq<bv32>, i: nat, w: bv32)
    requires i <= |before|
    ensures Put(before, i, w) == PutAll(before, i, [w])
  {
  }

  lemma PutAllMore(before: seq<bv32>, i: nat, ws: seq<bv32>, more: seq<bv32>)
    requires i <= |before|
    ensures i + |ws| <= |PutAll(before, i, ws)|
    ensures PutAll(PutAll(before, i, ws), i + |ws|, more) == PutAll(before, i, ws + more)
  {
  }

  /** Nothing has been emitted yet. */
  lemma Starts(t: Section)
    requires t.Valid()
    ensures t.Emitted(t.data, t.ind, [])
  {
    assert t.data[..t.ind] + [] + t.data[t.ind..] == t.data;
  }

  class Section {
    var data: seq<bv32>
    var ind: nat // in words

    ghost predicate Valid()
      reads this
    {
      ind <= |data|
    }

    /** `o`: store a word at the cursor and advance. */
    method O(w: bv32)
      requires Valid()
      modifies this
      ensures Valid() && ind == old(ind) + 1 && data == Put(old(data), old(ind), w)
    {
      data := if ind < |data| then data[ind := w] else data + [w];
      ind := ind + 1;
    }

    /** The words ws have been emitted since the cursor was at `start` over `before`. */
    ghost predicate Emitted(before: seq<bv32>, start: nat, ws: seq<bv32>)
      reads this
    {
      start <= |before| && data == PutAll(before, start, ws) && ind == start + |ws|
    }
  }
}
