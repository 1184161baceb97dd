/** What the codec promises: encoder output is always in the decoder's
    language, the dash escaping keeps it unambiguous, and decoding the
    encoder's hash gives back the parts. */
module FragmentRoundTrip {
  import opened Text
  import opened PercentCoding
  import opened FragmentCodec

  /** The decoder's class is the unreserved set plus `%`. */
  lemma ValidCharIsUnreservedOrPercent(c: char)
    ensures ValidChar(c) <==> Unreserved(c) || c == '%'
  {
  }

  /** An encoded token is never empty for a non-empty part, holds no raw `-`,
      is made of valid characters only, and decodes back to the part. */
  lemma EncodeTokenFacts(x: seq<byte>)
    ensures |EncodeToken(x)| > 0 <==> |x| > 0
    ensures '-' !in EncodeToken(x)
    ensures ValidChars(EncodeToken(x))
    ensures PercentDecode(EncodeToken(x)) == Some(x)
  {
    var t := EncodeToken(x);
    forall i | 0 <= i < |t| ensures ValidChar(t[i]) {
      ValidCharIsUnreservedOrPercent(t[i]);
    }
    DecodeEncode(x, true);
  }

  function OptEncode(x: seq<byte>): Option<string> {
    if x == [] then None else Some(EncodeToken(x))
  }

  /** The groups the encoder writes for the given parts. */
  function EncodedMatch(p: Parts): Match {
    Match(OptEncode(p.prefix), EncodeToken(p.textStart), OptEncode(p.textEnd), OptEncode(p.suffix))
  }

  /** No token of the match holds a raw `-`. */
  predicate DashFree(m: Match) {
    && (m.prefix.Some? ==> '-' !in m.prefix.value)
    && '-' !in m.textStart
    && (m.textEnd.Some? ==> '-' !in m.textEnd.value)
    && (m.suffix.Some? ==> '-' !in m.suffix.value)
  }

  lemma FmtIsOpt(x: seq<byte>, before: string, after: string)
    ensures Fmt(x, before, after) == Opt(OptEncode(x), before, after)
  {
  }

  /** With `textStart` set, the new hash is `#:~:text=` and then `prefix-,`,
      `textStart`, `,textEnd` and `,-suffix`, in that order, each present
      exactly when its part is non-empty. */
  lemma NewHashSpelling(p: Parts, oldHash: string)
    requires p.textStart != []
    ensures NewHash(p, oldHash) == Spelling(EncodedMatch(p))
  {
    var pieces := HashPieces(p);
    JoinDropEmpty(pieces);
    JoinFive(pieces);
    FmtIsOpt(p.prefix, "", "-,");
    FmtIsOpt(p.textEnd, ",", "");
    FmtIsOpt(p.suffix, ",-", "");
    assert pieces[2] == EncodeToken(p.textStart) + "" == EncodeToken(p.textStart);
  }

  lemma JoinFive(xs: seq<string>)
    requires |xs| == 5
    ensures Join(xs, []) == xs[0] + xs[1] + xs[2] + xs[3] + xs[4]
  {
    assert xs[3..] == [xs[3]] + xs[4..];
    JoinEmptySepCons(xs[3], xs[4..]);
    assert Join(xs[3..], []) == xs[3] + xs[4];
    assert xs[2..] == [xs[2]] + xs[3..];
    JoinEmptySepCons(xs[2], xs[3..]);
    assert Join(xs[2..], []) == xs[2] + xs[3] + xs[4];
    assert xs[1..] == [xs[1]] + xs[2..];
    JoinEmptySepCons(xs[1], xs[2..]);
    assert Join(xs[1..], []) == xs[1] + xs[2] + xs[3] + xs[4];
    assert xs == [xs[0]] + xs[1..];
    JoinEmptySepCons(xs[0], xs[1..]);
  }


  lemma EncodedMatchWellFormed(p: Parts, rd: Reading)
    requires p.textStart != []
    ensures WellFormed(EncodedMatch(p), rd) && DashFree(EncodedMatch(p))
  {
    EncodeTokenFacts(p.prefix);
    EncodeTokenFacts(p.textStart);
    EncodeTokenFacts(p.textEnd);
    EncodeTokenFacts(p.suffix);
    if p.textEnd != [] {
      assert EncodeToken(p.textEnd)[0] in EncodeToken(p.textEnd);
    }
  }

  predicate EndsWithDash(s: string) {
    |s| > 0 && s[|s| - 1] == '-'
  }

  predicate StartsWithDash(s: string) {
    |s| > 0 && s[0] == '-'
  }

  /** Where the dashes of the pieces can tell the shape apart. */
  lemma SegmentDashes(m: Match, rd: Reading)
    requires WellFormed(m, rd)
    ensures var segs := Segments(m);
      && |segs| == Count(ShapeOf(m))
      && (m.prefix.Some? ==> EndsWithDash(segs[0]))
      && (m.suffix.Some? ==> StartsWithDash(segs[|segs| - 1]))
      && (rd == Corrected && m.textEnd.Some? && m.suffix.None? ==> !StartsWithDash(segs[|segs| - 1]))
      && (DashFree(m) && m.prefix.None? ==> !EndsWithDash(segs[0]))
      && (DashFree(m) && m.suffix.None? ==> !StartsWithDash(segs[|segs| - 1]))
  {
    var segs := Segments(m);
    SegmentsOfWellFormed(m, rd);
    if DashFree(m) && m.prefix.None? {
      assert segs[0] == m.textStart;
      if |segs[0]| > 0 {
        assert segs[0][|segs[0]| - 1] in m.textStart;
      }
    }
    if DashFree(m) && m.suffix.None? {
      var last := segs[|segs| - 1];
      assert last == m.textStart || (m.textEnd.Some? && last == m.textEnd.value);
      if |last| > 0 {
        assert last[0] in last;
      }
    }
  }

  /** A hash spelled from a dash-free match has no reading earlier in the
      backtracking order than that match, except where the pattern as written
      lets `textEnd` swallow `,-suffix` (no textEnd but a suffix). */
  lemma NoEarlierReading(c: Match, m: Match, rd: Reading)
    requires WellFormed(c, rd) && DashFree(c)
    requires Reads(Spelling(c), m, rd)
    requires rd == Corrected || c.textEnd.Some? || c.suffix.None?
    ensures Rank(ShapeOf(m)) <= Rank(ShapeOf(c))
  {
    SameSegments(Spelling(c), c, m, rd);
    SegmentDashes(c, rd);
    SegmentDashes(m, rd);
  }

  /** Round trip: with `textStart` set, decoding the hash the editor writes
      gives back the parts it was written from. */
  lemma {:induction false} RoundTrip(p: Parts, oldHash: string)
    requires p.textStart != []
    ensures Decode(NewHash(p, oldHash), Corrected) == p
  {
    var c := EncodedMatch(p);
    var h := NewHash(p, oldHash);
    NewHashSpelling(p, oldHash);
    EncodedMatchWellFormed(p, Corrected);
    ParseBest(h, c, Corrected);
    var r := Parse(h, Corrected).value;
    NoEarlierReading(c, r, Corrected);
    RankShapeOfRank(ShapeOf(r));
    RankShapeOfRank(ShapeOf(c));
    ShapeDetermines(h, r, c, Corrected);
    EncodeTokenFacts(p.prefix);
    EncodeTokenFacts(p.textStart);
    EncodeTokenFacts(p.textEnd);
    EncodeTokenFacts(p.suffix);
  }

  /** With `textStart` empty, a text-fragment hash is cleared and any other
      hash is kept as it is. */
  lemma NewHashWithoutStart(p: Parts, oldHash: string)
    requires p.textStart == []
    ensures StartsWith(oldHash, Lead) ==> NewHash(p, oldHash) == []
    ensures !StartsWith(oldHash, Lead) ==> NewHash(p, oldHash) == oldHash
  {
  }

  /** The pattern as written still round-trips every part list except those
      with a suffix but no textEnd. */
  lemma {:induction false} RoundTripAsWritten(p: Parts, oldHash: string)
    requires p.textStart != []
    requires p.textEnd != [] || p.suffix == []
    ensures Decode(NewHash(p, oldHash), AsWritten) == p
  {
    var c := EncodedMatch(p);
    var h := NewHash(p, oldHash);
    NewHashSpelling(p, oldHash);
    EncodedMatchWellFormed(p, AsWritten);
    ParseBest(h, c, AsWritten);
    var r := Parse(h, AsWritten).value;
    NoEarlierReading(c, r, AsWritten);
    RankShapeOfRank(ShapeOf(r));
    RankShapeOfRank(ShapeOf(c));
    ShapeDetermines(h, r, c, AsWritten);
    EncodeTokenFacts(p.prefix);
    EncodeTokenFacts(p.textStart);
    EncodeTokenFacts(p.textEnd);
    EncodeTokenFacts(p.suffix);
  }

  /** No reading of a dash-free match with a suffix but no textEnd ranks
      above the shape with a textEnd in place of the suffix. */
  lemma NoReadingAboveTextEnd(c: Match, r: Match)
    requires WellFormed(c, AsWritten) && DashFree(c)
    requires c.textEnd.None? && c.suffix.Some?
    requires Reads(Spelling(c), r, AsWritten)
    ensures Rank(ShapeOf(r)) <= Rank(Shape(c.prefix.Some?, true, false))
  {
    SameSegments(Spelling(c), c, r, AsWritten);
    SegmentDashes(c, AsWritten);
    SegmentDashes(r, AsWritten);
  }

  /** The pattern as written, on a dash-free match with a suffix but no
      textEnd: the greedy textEnd group takes `,-suffix` whole. */
  lemma TextEndTakesSuffix(c: Match)
    requires WellFormed(c, AsWritten) && DashFree(c)
    requires c.textEnd.None? && c.suffix.Some?
    ensures Parse(Spelling(c), AsWritten) == Some(Match(c.prefix, c.textStart, Some("-" + c.suffix.value), None))
  {
    var h := Spelling(c);
    var m := Match(c.prefix, c.textStart, Some("-" + c.suffix.value), None);
    assert Opt(m.textEnd, ",", "") == Opt(c.suffix, ",-", "");
    assert Reads(h, m, AsWritten);
    ParseBest(h, m, AsWritten);
    var r := Parse(h, AsWritten).value;
    NoReadingAboveTextEnd(c, r);
    RankShapeOfRank(ShapeOf(r));
    RankShapeOfRank(ShapeOf(m));
    ShapeDetermines(h, r, m, AsWritten);
  }

  lemma DecodeDashed(x: seq<byte>)
    ensures IsAscii("-" + EncodeToken(x))
    ensures PercentDecode("-" + EncodeToken(x)) == Some(['-' as int as byte] + x)
  {
    EncodeTokenFacts(x);
    DecodeEncode(x, true);
    var t := "-" + EncodeToken(x);
    assert t[1..] == EncodeToken(x);
  }

  /** The pattern as written, on parts with a suffix but no textEnd: the
      suffix comes back as a textEnd that starts with `-`, and the suffix
      comes back empty. */
  lemma SuffixBecomesTextEnd(p: Parts, oldHash: string)
    requires p.textStart != [] && p.textEnd == [] && p.suffix != []
    ensures Decode(NewHash(p, oldHash), AsWritten) == Parts(p.prefix, p.textStart, ['-' as int as byte] + p.suffix, [])
  {
    NewHashSpelling(p, oldHash);
    EncodedMatchWellFormed(p, AsWritten);
    TextEndTakesSuffix(EncodedMatch(p));
    EncodeTokenFacts(p.prefix);
    EncodeTokenFacts(p.textStart);
    DecodeDashed(p.suffix);
  }

  /** Loading the hash the editor writes. Without `textStart` there are no
      parts, whether the old hash was cleared or kept. With it, the corrected
      pattern gives the parts back, and so does the pattern as written unless
      there is a suffix but no textEnd, which it reads as a textEnd. */
  lemma DecodeNewHash(p: Parts, oldHash: string, rd: Reading)
    ensures p.textStart == [] ==> Decode(NewHash(p, oldHash), rd) == EmptyParts
    ensures p.textStart != [] && (rd == Corrected || p.textEnd != [] || p.suffix == [])
      ==> Decode(NewHash(p, oldHash), rd) == p
    ensures p.textStart != [] && rd == AsWritten && p.textEnd == [] && p.suffix != []
      ==> Decode(NewHash(p, oldHash), rd) == Parts(p.prefix, p.textStart, ['-' as int as byte] + p.suffix, [])
  {
    if p.textStart != [] {
      if rd == Corrected {
        RoundTrip(p, oldHash);
      } else if p.textEnd != [] || p.suffix == [] {
        RoundTripAsWritten(p, oldHash);
      } else {
        SuffixBecomesTextEnd(p, oldHash);
      }
    }
  }
}
