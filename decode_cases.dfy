/** The decoder on sample hashes, and the editor's own hash on which the
    pattern as written loses the suffix. */
module DecodeCases {
  import opened Text
  import opened PercentCoding
  import opened FragmentCodec
  import opened FragmentRoundTrip

  lemma ParseHello(rd: Reading)
    ensures Parse("#:~:text=hello", rd) == Some(Match(None, "hello", None, None))
  {
    var h := "#:~:text=hello";
    var m := Match(None, "hello", None, None);
    assert Spelling(m) == h;
    ParseBest(h, m, rd);
    var r := Parse(h, rd).value;
    SameSegments(h, r, m, rd);
    SegmentsOfWellFormed(r, rd);
    ShapeDetermines(h, r, m, rd);
  }

  lemma DecodeOf(hash: string, m: Match, rd: Reading)
    requires Parse(hash, rd) == Some(m)
    ensures Decode(hash, rd) == Parts(DecodePart(m.prefix), DecodePart(Some(m.textStart)), DecodePart(m.textEnd), DecodePart(m.suffix))
  {
  }

  lemma HelloWord()
    ensures DecodePart(Some("hello")) == Ascii("hello")
  {
    DecodePlainPart("hello");
  }

  lemma DecodeHello(rd: Reading)
    ensures IsAscii("hello")
    ensures Decode("#:~:text=hello", rd) == Parts([], Ascii("hello"), [], [])
  {
    ParseHello(rd);
    DecodeOf("#:~:text=hello", Match(None, "hello", None, None), rd);
    HelloWord();
  }

  const AllFourHash: string := "#:~:text=foo-,hello,world,-bar"

  lemma ParseAllFour(rd: Reading)
    ensures Parse(AllFourHash, rd) == Some(Match(Some("foo"), "hello", Some("world"), Some("bar")))
  {
    var h := AllFourHash;
    var m := Match(Some("foo"), "hello", Some("world"), Some("bar"));
    assert Spelling(m) == h;
    ParseBest(h, m, rd);
    var r := Parse(h, rd).value;
    RankShapeOfRank(ShapeOf(r));
    ShapeDetermines(h, r, m, rd);
  }

  lemma DecodeAllFour(rd: Reading)
    ensures Decode(AllFourHash, rd)
         == Parts(Ascii("foo"), Ascii("hello"), Ascii("world"), Ascii("bar"))
  {
    ParseAllFour(rd);
    DecodeOf(AllFourHash, Match(Some("foo"), "hello", Some("world"), Some("bar")), rd);
    FirstTwoWords();
    LastTwoWords();
  }

  lemma DecodePlainPart(s: string)
    requires IsToken(s) && '%' !in s
    ensures DecodePart(Some(s)) == Ascii(s)
  {
    DecodePlain(s);
  }

  lemma FirstTwoWords()
    ensures DecodePart(Some("foo")) == Ascii("foo") && DecodePart(Some("hello")) == Ascii("hello")
  {
    DecodePlainPart("foo");
    DecodePlainPart("hello");
  }

  lemma LastTwoWords()
    ensures DecodePart(Some("world")) == Ascii("world") && DecodePart(Some("bar")) == Ascii("bar")
  {
    DecodePlainPart("world");
    DecodePlainPart("bar");
  }

  /** One character outside the class and `,` in the body, and nothing is
      decoded. */
  lemma BadCharDecodesEmpty(hash: string, i: nat, rd: Reading)
    requires |Lead| <= i < |hash|
    requires !ValidChar(hash[i]) && hash[i] != ','
    ensures Decode(hash, rd) == EmptyParts
  {
    if StartsWith(hash, Lead) {
      assert hash[|Lead|..][i - |Lead|] == hash[i];
    }
  }

  /** A space is outside the valid class, so nothing is decoded. */
  lemma DecodeInvalidChar(rd: Reading)
    ensures Decode("#:~:text=hi there", rd) == EmptyParts
  {
    BadCharDecodesEmpty("#:~:text=hi there", 11, rd);
  }

  /** The lead alone has no textStart, so nothing is decoded. */
  lemma DecodeBareLead(rd: Reading)
    ensures Decode(Lead, rd) == EmptyParts
  {
  }

  lemma ParseMalformedEscape(rd: Reading)
    ensures Parse("#:~:text=%ZZ,world", rd) == Some(Match(None, "%ZZ", Some("world"), None))
  {
    var h := "#:~:text=%ZZ,world";
    var m := Match(None, "%ZZ", Some("world"), None);
    assert Spelling(m) == h;
    ParseBest(h, m, rd);
    var r := Parse(h, rd).value;
    SameSegments(h, r, m, rd);
    SegmentsOfWellFormed(r, rd);
    SegmentDashes(r, rd);
    ShapeDetermines(h, r, m, rd);
  }

  lemma BadEscapePart()
    ensures DecodePart(Some("%ZZ")) == []
  {
    var t := "%ZZ";
    assert t[0] == '%' && HexValue(t[1]).None?;
  }

  /** A malformed escape empties only its own part. */
  lemma DecodeMalformedEscape(rd: Reading)
    ensures Decode("#:~:text=%ZZ,world", rd) == Parts([], [], Ascii("world"), [])
  {
    ParseMalformedEscape(rd);
    DecodeOf("#:~:text=%ZZ,world", Match(None, "%ZZ", Some("world"), None), rd);
    BadEscapePart();
    DecodePlainPart("world");
  }

  /** The parts of the example: textStart `a` and suffix `b`. */
  const SuffixOnly: Parts := Parts([], Ascii("a"), [], Ascii("b"))

  lemma EncodeLetter(s: string)
    requires |s| == 1 && 'a' <= s[0] <= 'z'
    ensures EncodeToken(Ascii(s)) == s
  {
    var b := Ascii(s);
    assert b == [b[0]];
    assert EncodeByte(b[0], true) == s;
  }

  /** The hash written for a one-letter textStart and a one-letter suffix. */
  lemma LetterSuffixHash(a: string, b: string, oldHash: string)
    requires |a| == 1 && 'a' <= a[0] <= 'z'
    requires |b| == 1 && 'a' <= b[0] <= 'z'
    ensures NewHash(Parts([], Ascii(a), [], Ascii(b)), oldHash) == Lead + a + ",-" + b
  {
    EncodeLetter(a);
    EncodeLetter(b);
    NewHashSpelling(Parts([], Ascii(a), [], Ascii(b)), oldHash);
  }

  lemma SuffixOnlyHash()
    ensures NewHash(SuffixOnly, []) == "#:~:text=a,-b"
  {
    LetterSuffixHash("a", "b", []);
  }

  lemma DashB()
    ensures Ascii("-b") == ['-' as int as byte] + Ascii("b")
  {
  }

  lemma SuffixOnlyAsWritten()
    ensures Decode("#:~:text=a,-b", AsWritten) == Parts([], Ascii("a"), Ascii("-b"), [])
  {
    SuffixOnlyHash();
    SuffixBecomesTextEnd(SuffixOnly, []);
    DashB();
  }

  /** The corrected reading gives the parts of the example back. */
  lemma SuffixOnlyCorrected()
    ensures Decode("#:~:text=a,-b", Corrected) == SuffixOnly
  {
    SuffixOnlyHash();
    RoundTrip(SuffixOnly, []);
  }

  /** As written, the pattern reads the editor's own `#:~:text=a,-b` (written
      for textStart `a` and suffix `b`) as textStart `a` and textEnd `-b`. */
  lemma SuffixReadAsTextEnd()
    ensures NewHash(SuffixOnly, []) == "#:~:text=a,-b"
    ensures Decode("#:~:text=a,-b", AsWritten) == Parts([], Ascii("a"), Ascii("-b"), [])
  {
    SuffixOnlyHash();
    SuffixOnlyAsWritten();
  }
}
