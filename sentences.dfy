/**
 * The sentence split of the text batcher: the text is cut immediately after
 * every `.`, `!` and `?`, the terminator staying with the piece on its left.
 * This is what `re.split` does with a zero-width look-behind pattern on that
 * character class: every cut point yields a piece, so consecutive
 * terminators give one-character pieces and a text ending in a terminator
 * gives a final empty piece; the empty text gives one empty piece.
 */
module Sentences {
  import opened PyText

  predicate IsTerminator(c: char) {
    c == '.' || c == '!' || c == '?'
  }

  predicate NoTerminator(s: string) {
    forall i :: 0 <= i < |s| ==> !IsTerminator(s[i])
  }

  /** A piece that is not the last: it ends with its first terminator. */
  predicate IsSentence(s: string) {
    s != [] && IsTerminator(s[|s| - 1]) && NoTerminator(s[..|s| - 1])
  }

  /** `pieces` cut `t` after every terminator and nowhere else. */
  predicate IsSentencePartition(pieces: seq<string>, t: string) {
    && |pieces| >= 1
    && Concat(pieces) == t
    && (forall k :: 0 <= k < |pieces| - 1 ==> IsSentence(pieces[k]))
    && NoTerminator(pieces[|pieces| - 1])
  }

  /** The pieces of `t` in order, scanning one character at a time: one
      piece more than there are cut points, so at least one, even for the
      empty text, and at most one per character plus one. */
  function Segments(t: string): (r: seq<string>)
    ensures 1 <= |r| <= |t| + 1
    decreases |t|
  {
    if t == [] then [[]]
    else
      var rest := Segments(t[1..]);
      if IsTerminator(t[0]) then [[t[0]]] + rest
      else [[t[0]] + rest[0]] + rest[1..]
  }

  lemma NoTerminatorCons(c: char, s: string)
    ensures NoTerminator([c] + s) <==> !IsTerminator(c) && NoTerminator(s)
  {
    if !IsTerminator(c) && NoTerminator(s) {
      forall i | 0 <= i < |[c] + s| ensures !IsTerminator(([c] + s)[i]) {
        if i > 0 { assert ([c] + s)[i] == s[i - 1]; }
      }
    }
    if NoTerminator([c] + s) {
      assert ([c] + s)[0] == c;
      forall i | 0 <= i < |s| ensures !IsTerminator(s[i]) {
        assert ([c] + s)[i + 1] == s[i];
      }
    }
  }

  /** Prepending a non-terminator to a piece keeps its kind. */
  lemma IsSentenceCons(c: char, s: string)
    requires !IsTerminator(c)
    ensures IsSentence([c] + s) <==> IsSentence(s)
  {
    if s != [] {
      assert ([c] + s)[..|[c] + s| - 1] == [c] + s[..|s| - 1];
      NoTerminatorCons(c, s[..|s| - 1]);
    } else {
      assert ([c] + s)[..0] == [];
    }
  }

  /** The segmentation is a partition of the text at the terminators. */
  lemma {:induction false} SegmentsPartition(t: string)
    ensures IsSentencePartition(Segments(t), t)
    decreases |t|
  {
    if t != [] {
      SegmentsPartition(t[1..]);
      assert t == [t[0]] + t[1..];
      if IsTerminator(t[0]) {
        PartitionConsTerminator(t[0], Segments(t[1..]), t[1..]);
      } else {
        PartitionConsPlain(t[0], Segments(t[1..]), t[1..]);
      }
    }
  }

  /** A terminator in front of a partitioned text is a piece of its own. */
  lemma PartitionConsTerminator(c: char, rest: seq<string>, t: string)
    requires IsTerminator(c) && IsSentencePartition(rest, t)
    ensures IsSentencePartition([[c]] + rest, [c] + t)
  {
    var r := [[c]] + rest;
    assert r[1..] == rest;
    assert IsSentence([c]) by { assert [c][..0] == []; }
    assert Concat(r) == [c] + Concat(rest);
  }

  /** Any other character in front of a partitioned text joins its first
      piece. */
  lemma PartitionConsPlain(c: char, rest: seq<string>, t: string)
    requires !IsTerminator(c) && IsSentencePartition(rest, t)
    ensures IsSentencePartition([[c] + rest[0]] + rest[1..], [c] + t)
  {
    var r := [[c] + rest[0]] + rest[1..];
    assert Concat(rest) == rest[0] + Concat(rest[1..]);
    assert r[1..] == rest[1..];
    assert Concat(r) == [c] + rest[0] + Concat(rest[1..]);
    forall k | 0 <= k < |r| - 1 ensures IsSentence(r[k]) {
      if k == 0 {
        IsSentenceCons(c, rest[0]);
      } else {
        assert r[k] == rest[k];
      }
    }
    if |rest| == 1 {
      NoTerminatorCons(c, rest[0]);
    } else {
      assert r[|r| - 1] == rest[|rest| - 1];
    }
  }

  /** The partition at the terminators is unique: any sequence of pieces
      that cuts `t` after every terminator and nowhere else is the
      segmentation. */
  lemma {:induction false} SegmentsUnique(pieces: seq<string>, t: string)
    requires IsSentencePartition(pieces, t)
    ensures pieces == Segments(t)
    decreases |t|
  {
    if t == [] {
      EmptyPartition(pieces);
    } else if IsTerminator(t[0]) {
      TerminatorPartition(pieces, t);
      SegmentsUnique(pieces[1..], t[1..]);
      assert pieces == [[t[0]]] + pieces[1..];
    } else {
      PlainPartition(pieces, t);
      var tail := [pieces[0][1..]] + pieces[1..];
      SegmentsUnique(tail, t[1..]);
      assert pieces == [[t[0]] + tail[0]] + tail[1..];
    }
  }

  /** The empty text has the single empty piece. */
  lemma EmptyPartition(pieces: seq<string>)
    requires IsSentencePartition(pieces, [])
    ensures pieces == [[]]
  {
    assert Concat(pieces) == pieces[0] + Concat(pieces[1..]);
    if |pieces| > 1 {
      assert false;
    }
  }

  /** A text that starts with a terminator has that terminator as its first
      piece. */
  lemma TerminatorPartition(pieces: seq<string>, t: string)
    requires IsSentencePartition(pieces, t)
    requires t != [] && IsTerminator(t[0])
    ensures |pieces| > 1 && pieces[0] == [t[0]]
    ensures IsSentencePartition(pieces[1..], t[1..])
  {
    var p0 := pieces[0];
    assert Concat(pieces) == p0 + Concat(pieces[1..]);
    if |pieces| == 1 {
      assert false;
    }
    assert IsSentence(p0);
    assert t[0] == p0[0];
    if |p0| > 1 {
      assert false;
    }
    assert p0 == [t[0]];
    assert t[1..] == Concat(pieces[1..]);
    var tail := pieces[1..];
    forall k | 0 <= k < |tail| - 1 ensures IsSentence(tail[k]) {
      assert tail[k] == pieces[k + 1];
    }
  }

  /** A text that starts with another character has it at the head of its
      first piece; the rest of that piece starts the partition of the rest. */
  lemma PlainPartition(pieces: seq<string>, t: string)
    requires IsSentencePartition(pieces, t)
    requires t != [] && !IsTerminator(t[0])
    ensures pieces[0] != [] && pieces[0] == [t[0]] + pieces[0][1..]
    ensures IsSentencePartition([pieces[0][1..]] + pieces[1..], t[1..])
  {
    var p0 := pieces[0];
    assert Concat(pieces) == p0 + Concat(pieces[1..]);
    assert |pieces| > 1 ==> IsSentence(p0);
    if p0 == [] {
      assert false;
    }
    assert t[0] == p0[0];
    assert t[1..] == p0[1..] + Concat(pieces[1..]);
    var tail := [p0[1..]] + pieces[1..];
    assert p0 == [t[0]] + p0[1..];
    assert Concat(tail) == p0[1..] + Concat(pieces[1..]);
    forall k | 0 <= k < |tail| - 1 ensures IsSentence(tail[k]) {
      if k == 0 {
        IsSentenceCons(t[0], p0[1..]);
      } else {
        assert tail[k] == pieces[k];
      }
    }
    if |pieces| == 1 {
      NoTerminatorCons(t[0], p0[1..]);
    } else {
      assert tail[|tail| - 1] == pieces[|pieces| - 1];
    }
  }

  /** A text without terminators is a single piece. */
  lemma SegmentsOfPlain(t: string)
    requires NoTerminator(t)
    ensures Segments(t) == [t]
  {
    assert Concat([t]) == t + Concat([]);
    SegmentsUnique([t], t);
  }
}
