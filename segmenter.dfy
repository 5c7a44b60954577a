/**
 * The summariser's sentence splitter, `text.match(/[^.!?]+[.!?]+/g)`.
 *
 * A global match of that expression scans left to right: a match cannot start
 * on a terminator, so terminators at the very start of the text are skipped;
 * a match takes the maximal run of non-terminators and then the maximal run
 * of terminators after it; text after the last terminator matches nothing.
 */
module Segmenter {
  import opened Strings

  /** The characters of the class `[.!?]`. */
  predicate IsTerminator(c: char)
  {
    c == '.' || c == '!' || c == '?'
  }

  /** Length of the maximal run of non-terminators that starts `s`. */
  function BodyLength(s: string): (k: nat)
    ensures k <= |s|
  {
    if |s| == 0 || IsTerminator(s[0]) then 0 else 1 + BodyLength(s[1..])
  }

  /** `BodyLength` measures a run of non-terminators that ends at a terminator or at the end. */
  lemma {:induction false} BodyLengthRun(s: string)
    ensures forall i :: 0 <= i < BodyLength(s) ==> !IsTerminator(s[i])
    ensures BodyLength(s) < |s| ==> IsTerminator(s[BodyLength(s)])
  {
    if |s| > 0 && !IsTerminator(s[0]) {
      BodyLengthRun(s[1..]);
    }
  }

  /** Length of the maximal run of terminators that starts `s`. */
  function PunctLength(s: string): (k: nat)
    ensures k <= |s|
  {
    if |s| == 0 || !IsTerminator(s[0]) then 0 else 1 + PunctLength(s[1..])
  }

  /** `PunctLength` measures a run of terminators that ends at a non-terminator or at the end. */
  lemma {:induction false} PunctLengthRun(s: string)
    ensures forall i :: 0 <= i < PunctLength(s) ==> IsTerminator(s[i])
    ensures PunctLength(s) < |s| ==> !IsTerminator(s[PunctLength(s)])
  {
    if |s| > 0 && IsTerminator(s[0]) {
      PunctLengthRun(s[1..]);
    }
  }

  /** Where a match that starts at the beginning of `s` ends: after the run of non-terminators
      and the run of terminators that follows it. */
  function MatchEnd(s: string): (e: nat)
    ensures e <= |s|
  {
    BodyLength(s) + PunctLength(s[BodyLength(s)..])
  }

  /** The successive matches of `/[^.!?]+[.!?]+/g` in `s`. */
  function Segments(s: string): (r: seq<string>)
    ensures 2 * |r| <= |s|
    decreases |s|
  {
    if |s| == 0 then []
    else if IsTerminator(s[0]) then Segments(s[1..])
    else if BodyLength(s) == |s| then []
    else [s[..MatchEnd(s)]] + Segments(s[MatchEnd(s)..])
  }

  /** One match: a non-empty run of non-terminators, then a non-empty run of terminators. */
  predicate IsSegment(seg: string)
  {
    0 < BodyLength(seg) < |seg| && forall i :: BodyLength(seg) <= i < |seg| ==> IsTerminator(seg[i])
  }

  /** `text.match(...) || [text]`: the matches, or the whole text when nothing matches. */
  function Sentences(text: string): (r: seq<string>)
    ensures |r| >= 1
  {
    if Segments(text) == [] then [text] else Segments(text)
  }

  /** The matched text: all matches, back to back. */
  function Matched(s: string): string
  {
    Join(Segments(s), [])
  }

  /** A match that starts on a non-terminator and reaches a terminator is a segment, and what
      follows it does not start with a terminator. */
  lemma {:induction false} BodyThenPunct(s: string, b: nat, e: nat)
    requires b == BodyLength(s) && 0 < b < |s| && e == MatchEnd(s)
    ensures b < e <= |s|
    ensures BodyLength(s[..e]) == b
    ensures IsSegment(s[..e])
    ensures e < |s| ==> !IsTerminator(s[e])
  {
    var seg := s[..e];
    BodyLengthRun(s);
    PunctLengthRun(s[b..]);
    PrefixBodyLength(s, e);
    forall i | b <= i < e ensures IsTerminator(seg[i]) {
      assert seg[i] == s[b..][i - b];
    }
    if e < |s| {
      assert s[e] == s[b..][e - b];
    }
  }

  /** A prefix that reaches past the first terminator has the same body. */
  lemma {:induction false} PrefixBodyLength(s: string, e: nat)
    requires BodyLength(s) < e <= |s|
    ensures BodyLength(s[..e]) == BodyLength(s)
  {
    if |s| > 0 && !IsTerminator(s[0]) {
      assert s[..e][1..] == s[1..][..e - 1];
      PrefixBodyLength(s[1..], e - 1);
    }
  }

  /** Every match is a run of non-terminators followed by a run of terminators. */
  lemma {:induction false} SegmentsAreSegments(s: string)
    ensures forall seg :: seg in Segments(s) ==> IsSegment(seg)
    decreases |s|
  {
    if |s| > 0 {
      if IsTerminator(s[0]) {
        SegmentsAreSegments(s[1..]);
      } else {
        var b := BodyLength(s);
        if b < |s| {
          var e := MatchEnd(s);
          BodyThenPunct(s, b, e);
          SegmentsAreSegments(s[e..]);
        }
      }
    }
  }

  /** The matches, back to back, are exactly the text between the leading terminators (which
      the scan skips, since no match can start on one) and an unterminated tail; that tail
      holds no terminator, so matches neither overlap nor leave gaps, and no text a match could
      take is left out. */
  lemma {:induction false} SegmentsCoverText(s: string)
    ensures forall i :: 0 <= i < PunctLength(s) ==> IsTerminator(s[i])
    ensures PunctLength(s) + |Matched(s)| <= |s|
    ensures s[PunctLength(s)..PunctLength(s) + |Matched(s)|] == Matched(s)
    ensures forall i :: PunctLength(s) + |Matched(s)| <= i < |s| ==> !IsTerminator(s[i])
    decreases |s|
  {
    if |s| == 0 {
    } else if IsTerminator(s[0]) {
      SegmentsCoverText(s[1..]);
      CoverAfterTerminator(s);
    } else if BodyLength(s) < |s| {
      SegmentsCoverText(s[MatchEnd(s)..]);
      CoverAfterMatch(s);
    } else {
      BodyLengthRun(s);
    }
    PunctLengthRun(s);
  }

  /** The inductive step of `SegmentsCoverText` over a skipped leading terminator. */
  lemma CoverAfterTerminator(s: string)
    requires |s| > 0 && IsTerminator(s[0])
    requires PunctLength(s[1..]) + |Matched(s[1..])| <= |s| - 1
    requires s[1..][PunctLength(s[1..])..PunctLength(s[1..]) + |Matched(s[1..])|] == Matched(s[1..])
    requires forall i :: PunctLength(s[1..]) + |Matched(s[1..])| <= i < |s| - 1 ==> !IsTerminator(s[1..][i])
    ensures PunctLength(s) + |Matched(s)| <= |s|
    ensures s[PunctLength(s)..PunctLength(s) + |Matched(s)|] == Matched(s)
    ensures forall i :: PunctLength(s) + |Matched(s)| <= i < |s| ==> !IsTerminator(s[i])
  {
    assert PunctLength(s) == 1 + PunctLength(s[1..]);
    assert Segments(s) == Segments(s[1..]);
    CoverAfterFirst(s, PunctLength(s[1..]), Matched(s[1..]));
  }

  /** Moves a cover of `s[1..]`, text `m` at offset `l` and no terminator after it, onto `s`. */
  lemma CoverAfterFirst(s: string, l: nat, m: string)
    requires |s| > 0 && l + |m| <= |s| - 1
    requires s[1..][l..l + |m|] == m
    requires forall i :: l + |m| <= i < |s| - 1 ==> !IsTerminator(s[1..][i])
    ensures s[l + 1..l + 1 + |m|] == m
    ensures forall i :: l + 1 + |m| <= i < |s| ==> !IsTerminator(s[i])
  {
    assert s[1..][l..l + |m|] == s[l + 1..l + 1 + |m|];
    forall i | l + 1 + |m| <= i < |s| ensures !IsTerminator(s[i]) {
      assert s[i] == s[1..][i - 1];
    }
  }

  /** The inductive step of `SegmentsCoverText` over a first match. */
  lemma CoverAfterMatch(s: string)
    requires |s| > 0 && !IsTerminator(s[0]) && BodyLength(s) < |s|
    requires PunctLength(s[MatchEnd(s)..]) + |Matched(s[MatchEnd(s)..])| <= |s| - MatchEnd(s)
    requires s[MatchEnd(s)..][PunctLength(s[MatchEnd(s)..])..PunctLength(s[MatchEnd(s)..]) + |Matched(s[MatchEnd(s)..])|]
               == Matched(s[MatchEnd(s)..])
    requires forall i :: PunctLength(s[MatchEnd(s)..]) + |Matched(s[MatchEnd(s)..])| <= i < |s| - MatchEnd(s) ==>
               !IsTerminator(s[MatchEnd(s)..][i])
    ensures PunctLength(s) + |Matched(s)| <= |s|
    ensures s[PunctLength(s)..PunctLength(s) + |Matched(s)|] == Matched(s)
    ensures forall i :: PunctLength(s) + |Matched(s)| <= i < |s| ==> !IsTerminator(s[i])
  {
    var e := MatchEnd(s);
    BodyThenPunct(s, BodyLength(s), e);
    var rest := s[e..];
    assert PunctLength(rest) == 0;
    assert Segments(s) == [s[..e]] + Segments(rest);
    JoinEmptyCons(s[..e], Segments(rest));
    CoverAfterSegment(s, e, Matched(rest));
  }

  /** The inductive step of `SegmentsCoverText` over a first match `s[..e]`, followed by the
      matched text `m` of the rest. */
  lemma CoverAfterSegment(s: string, e: nat, m: string)
    requires e + |m| <= |s|
    requires s[e..][..|m|] == m
    requires forall i :: |m| <= i < |s| - e ==> !IsTerminator(s[e..][i])
    ensures s[..e + |m|] == s[..e] + m
    ensures forall i :: e + |m| <= i < |s| ==> !IsTerminator(s[i])
  {
    assert s[..e + |m|] == s[..e] + s[e..][..|m|];
    forall i | e + |m| <= i < |s| ensures !IsTerminator(s[i]) {
      assert s[i] == s[e..][i - e];
    }
  }
}
