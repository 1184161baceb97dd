/** The text-fragment codec of the editor: reading the four parts out of a
    `#:~:text=[prefix-,]textStart[,textEnd][,-suffix]` hash and writing them
    back into one. */
module FragmentCodec {
  import opened Text
  import opened PercentCoding

  /** The directive every text-fragment hash starts with. */
  const Lead: string := "#:~:text="

  /** The four parts the editor shows, each held as the UTF-8 bytes of its
      text. */
  datatype Parts = Parts(prefix: seq<byte>, textStart: seq<byte>, textEnd: seq<byte>, suffix: seq<byte>)

  const EmptyParts: Parts := Parts([], [], [], [])

  // ---------------------------------------------------------------------
  // Encoder
  // ---------------------------------------------------------------------

  /** The number an upper-case hexadecimal numeral stands for, most
      significant digit first. */
  function NumeralValue(s: string): nat
  {
    if s == [] then 0 else 16 * NumeralValue(s[..|s| - 1]) + HexValue(s[|s| - 1]).GetOr(0)
  }

  predicate UpperHexDigit(c: char) {
    ('0' <= c <= '9') || ('A' <= c <= 'F')
  }

  /** Upper-case hexadecimal form of `n` without leading zeros
      (`n.toString(16).toUpperCase()`). */
  function UpperHex(n: nat): (r: string)
    ensures |r| > 0
    ensures forall i :: 0 <= i < |r| ==> UpperHexDigit(r[i])
    ensures NumeralValue(r) == n
    ensures r[0] == '0' ==> r == "0"
  {
    if n < 16 then HexDigitValue(n); [HexDigit(n)]
    else
      var r := UpperHex(n / 16) + [HexDigit(n % 16)];
      HexDigitValue(n % 16);
      assert r[..|r| - 1] == UpperHex(n / 16);
      r
  }

  /** `s.padStart(2, '0')`: `s` with `0`s in front up to two characters. */
  function PadStart2(s: string): (r: string)
    ensures |r| == if |s| >= 2 then |s| else 2
    ensures r[|r| - |s|..] == s
    ensures forall i :: 0 <= i < |r| - |s| ==> r[i] == '0'
  {
    if |s| >= 2 then s else seq(2 - |s|, _ => '0') + s
  }

  /** The escape the editor writes in place of every `-`. */
  const EncodedDash: string := ['%'] + PadStart2(UpperHex('-' as int))

  /** `'%' + b.toString(16).toUpperCase().padStart(2, '0')` is the escape
      encodeURIComponent writes for the octet `b`. */
  lemma PaddedHexIsEscape(b: byte)
    ensures ['%'] + PadStart2(UpperHex(b as int)) == PercentEscape(b)
  {
    if b as int >= 16 {
      assert UpperHex(b as int / 16) == [HexDigit(b as int / 16)];
    }
  }

  lemma EncodedDashIsEscapeOfDash()
    ensures EncodedDash == "%2D" == PercentEscape('-' as int as byte)
  {
    assert UpperHex(2) == "2";
    assert UpperHex('-' as int) == UpperHex(2) + [HexDigit(13)] == "2D";
    assert PadStart2("2D") == "2D";
    PaddedHexIsEscape('-' as int as byte);
  }

  lemma ReplaceDashInByte(b: byte)
    ensures ReplaceChar(EncodeByte(b, false), '-', EncodedDash) == EncodeByte(b, true)
  {
    var c := b as int as char;
    if Unreserved(c) {
      assert ReplaceChar([c], '-', EncodedDash) == (if c == '-' then EncodedDash else [c]) + ReplaceChar([], '-', EncodedDash);
      if c == '-' {
        EncodedDashIsEscapeOfDash();
        assert b == '-' as int as byte;
      }
    } else {
      var e := PercentEscape(b);
      assert e == ['%'] + [HexDigit(b as int / 16)] + [HexDigit(b as int % 16)];
      ReplaceCharAbsent(e, '-', EncodedDash);
    }
  }


  lemma {:induction false} ReplaceDashInEncoding(x: seq<byte>)
    ensures ReplaceChar(PercentEncode(x, false), '-', EncodedDash) == PercentEncode(x, true)
    decreases |x|
  {
    if x != [] {
      ReplaceDashInEncoding(x[1..]);
      ReplaceCharAppend(EncodeByte(x[0], false), PercentEncode(x[1..], false), '-', EncodedDash);
      ReplaceDashInByte(x[0]);
    }
  }

  /** The editor's token encoder: encodeURIComponent, then every `-` of the
      result replaced by the encoded dash. It is percent-encoding with `-`
      taken out of the unreserved set. */
  function EncodeToken(x: seq<byte>): (r: string)
    ensures r == PercentEncode(x, true)
  {
    JoinSplit(EncodeURIComponent(x), '-', EncodedDash);
    ReplaceDashInEncoding(x);
    Join(Split(EncodeURIComponent(x), '-'), EncodedDash)
  }

  /** `fmt(fn)(x)`: nothing for an empty part, otherwise the encoded part
      between its separators. */
  function Fmt(x: seq<byte>, before: string, after: string): (r: string)
    ensures r == [] <==> x == []
  {
    if x == [] then [] else before + EncodeToken(x) + after
  }

  /** The pieces the editor joins into a new hash. */
  function HashPieces(p: Parts): seq<string>
  {
    [Lead, Fmt(p.prefix, "", "-,"), Fmt(p.textStart, "", ""), Fmt(p.textEnd, ",", ""), Fmt(p.suffix, ",-", "")]
  }

  /** The hash the editor gives the URL: a fresh directive when `textStart`
      is set; otherwise the old hash, cleared if it was a text fragment. */
  function NewHash(p: Parts, oldHash: string): (r: string)
    ensures StartsWith(r, Lead) <==> p.textStart != []
    ensures p.textStart == [] ==> r == [] || r == oldHash
  {
    if p.textStart != [] then
      var pieces := HashPieces(p);
      assert pieces == [Lead] + pieces[1..];
      assert DropEmpty(pieces) == [Lead] + DropEmpty(pieces[1..]);
      JoinEmptySepCons(Lead, DropEmpty(pieces[1..]));
      Join(DropEmpty(pieces), [])
    else if StartsWith(oldHash, Lead) then []
    else oldHash
  }

  // ---------------------------------------------------------------------
  // Decoder grammar
  // ---------------------------------------------------------------------

  /** The class `[!%'()*\-.0-9A-Z_a-z~]` of raw token characters. */
  predicate ValidChar(c: char) {
    c == '!' || c == '%' || c == '\'' || c == '(' || c == ')' || c == '*' || c == '-' || c == '.'
    || ('0' <= c <= '9') || ('A' <= c <= 'Z') || c == '_' || ('a' <= c <= 'z') || c == '~'
  }

  predicate ValidChars(t: string) {
    forall i :: 0 <= i < |t| ==> ValidChar(t[i])
  }

  /** One or more valid characters. */
  predicate IsToken(t: string) {
    |t| > 0 && ValidChars(t)
  }

  predicate OptToken(t: Option<string>) {
    t.Some? ==> IsToken(t.value)
  }

  /** The groups the decoder's pattern captures; None for an absent group. */
  datatype Match = Match(prefix: Option<string>, textStart: string, textEnd: Option<string>, suffix: Option<string>)

  /** Which optional groups take part in a match. */
  datatype Shape = Shape(hasPrefix: bool, hasEnd: bool, hasSuffix: bool)

  /** The pattern as written, or with `textEnd` barred from starting with
      `-` (so that `,-suffix` is always read as the suffix). */
  datatype Reading = AsWritten | Corrected

  function ShapeOf(m: Match): Shape {
    Shape(m.prefix.Some?, m.textEnd.Some?, m.suffix.Some?)
  }

  /** The backtracking order of the pattern: every optional group is greedy,
      so the prefix group is tried present first, then the textEnd group,
      then the suffix group. A higher rank is tried earlier. */
  function Rank(s: Shape): nat {
    (if s.hasPrefix then 4 else 0) + (if s.hasEnd then 2 else 0) + (if s.hasSuffix then 1 else 0)
  }

  function ShapeOfRank(k: nat): (s: Shape)
    requires k < 8
    ensures Rank(s) == k
  {
    Shape(k >= 4, k % 4 >= 2, k % 2 == 1)
  }

  lemma RankShapeOfRank(s: Shape)
    ensures Rank(s) < 8 && ShapeOfRank(Rank(s)) == s
  {
  }

  /** The tokens a match may capture. */
  predicate WellFormed(m: Match, rd: Reading) {
    && OptToken(m.prefix) && IsToken(m.textStart) && OptToken(m.textEnd) && OptToken(m.suffix)
    && (rd == Corrected && m.textEnd.Some? ==> m.textEnd.value[0] != '-')
  }

  function Opt(t: Option<string>, before: string, after: string): string {
    if t.Some? then before + t.value + after else []
  }

  /** The hash a match stands for. */
  function Spelling(m: Match): string {
    Lead + Opt(m.prefix, "", "-,") + m.textStart + Opt(m.textEnd, ",", "") + Opt(m.suffix, ",-", "")
  }

  /** `m` is one way the pattern matches `hash`. */
  predicate Reads(hash: string, m: Match, rd: Reading) {
    WellFormed(m, rd) && Spelling(m) == hash
  }

  /** `m` is the way the pattern matches `hash`: no reading of it comes
      earlier in the backtracking order. */
  ghost predicate Preferred(hash: string, m: Match, rd: Reading) {
    Reads(hash, m, rd) && forall m' :: Reads(hash, m', rd) ==> Rank(ShapeOf(m')) <= Rank(ShapeOf(m))
  }

  /** The comma-separated pieces of a match's body. */
  function Segments(m: Match): seq<string> {
    (if m.prefix.Some? then [m.prefix.value + "-"] else []) + ([m.textStart] + TailSegments(m))
  }

  /** The pieces after `textStart`. */
  function TailSegments(m: Match): seq<string> {
    (if m.textEnd.Some? then [m.textEnd.value] else []) + (if m.suffix.Some? then ["-" + m.suffix.value] else [])
  }

  function Count(s: Shape): nat {
    (if s.hasPrefix then 1 else 0) + 1 + (if s.hasEnd then 1 else 0) + (if s.hasSuffix then 1 else 0)
  }

  /** The characters a hash body may hold: token characters and `,`. */
  predicate BodyChars(body: string) {
    forall i :: 0 <= i < |body| ==> ValidChar(body[i]) || body[i] == ','
  }

  /** Reads a list of comma-separated pieces as a match of the given shape. */
  function Carve(segs: seq<string>, s: Shape, rd: Reading): Option<Match>
  {
    var p := if s.hasPrefix then 1 else 0;
    var n := Count(s);
    if |segs| != n then None
    else if s.hasPrefix && !(|segs[0]| >= 2 && segs[0][|segs[0]| - 1] == '-') then None
    else if |segs[p]| == 0 then None
    else if s.hasEnd && (|segs[p + 1]| == 0 || (rd == Corrected && segs[p + 1][0] == '-')) then None
    else if s.hasSuffix && !(|segs[n - 1]| >= 2 && segs[n - 1][0] == '-') then None
    else Some(Match(
      if s.hasPrefix then Some(segs[0][..|segs[0]| - 1]) else None,
      segs[p],
      if s.hasEnd then Some(segs[p + 1]) else None,
      if s.hasSuffix then Some(segs[n - 1][1..]) else None))
  }

  /** Tries the shapes of rank `k` down to 0, in the pattern's backtracking
      order, and keeps the first that fits. */
  function Search(segs: seq<string>, k: nat, rd: Reading): Option<Match>
    requires k < 8
  {
    match Carve(segs, ShapeOfRank(k), rd)
    case Some(m) => Some(m)
    case None => if k == 0 then None else Search(segs, k - 1, rd)
  }

  /** Matches a hash against the pattern
      `^#:~:text=(?:(V+)-,)?(V+)(?:,(V+))?(?:,-(V+))?$` where `V` is the
      valid class; a match is some reading of the hash. */
  function Parse(hash: string, rd: Reading): (r: Option<Match>)
    ensures r.Some? ==> Reads(hash, r.value, rd)
  {
    if !StartsWith(hash, Lead) then None
    else
      var body := hash[|Lead|..];
      if !BodyChars(body) then None
      else
        var r := Search(Split(body, ','), 7, rd);
        ParseSound(hash, body, r, rd);
        r
  }

  // ---------------------------------------------------------------------
  // Decoder
  // ---------------------------------------------------------------------

  /** A captured group, percent-decoded; an absent group or a failed decode
      gives the empty part. */
  function DecodePart(t: Option<string>): (r: seq<byte>)
    requires OptToken(t)
    ensures r != [] <==> t.Some? && WellEscaped(t.value)
    ensures t.Some? ==> |r| <= |t.value|
  {
    if t.None? then []
    else
      DecodeSucceedsIff(t.value);
      PercentDecode(t.value).GetOr([])
  }

  /** The parts a hash holds; all empty when it is not a text fragment. */
  function Decode(hash: string, rd: Reading): (r: Parts)
    ensures r != EmptyParts ==> StartsWith(hash, Lead) && BodyChars(hash[|Lead|..])
  {
    match Parse(hash, rd)
    case None => EmptyParts
    case Some(m) => Parts(DecodePart(m.prefix), DecodePart(Some(m.textStart)), DecodePart(m.textEnd), DecodePart(m.suffix))
  }

  // ---------------------------------------------------------------------
  // Properties of the grammar
  // ---------------------------------------------------------------------

  lemma JoinCons(a: string, rest: seq<string>, sep: string)
    ensures Join([a] + rest, sep) == if rest == [] then a else a + sep + Join(rest, sep)
  {
    if rest != [] {
      assert ([a] + rest)[1..] == rest;
    }
  }



  lemma TailJoin(m: Match)
    ensures TailSegments(m) == [] ==> Opt(m.textEnd, ",", "") + Opt(m.suffix, ",-", "") == []
    ensures TailSegments(m) != [] ==> Opt(m.textEnd, ",", "") + Opt(m.suffix, ",-", "") == "," + Join(TailSegments(m), ",")
  {
    var tail := TailSegments(m);
    if m.textEnd.Some? && m.suffix.Some? {
      var last := "-" + m.suffix.value;
      assert tail == [m.textEnd.value] + [last];
      JoinCons(m.textEnd.value, [last], ",");
      assert Opt(m.textEnd, ",", "") == "," + m.textEnd.value;
      assert Opt(m.suffix, ",-", "") == "," + last;
    } else if m.textEnd.Some? {
      assert tail == [m.textEnd.value];
      assert Opt(m.textEnd, ",", "") == "," + m.textEnd.value;
    } else if m.suffix.Some? {
      assert tail == ["-" + m.suffix.value];
      assert Opt(m.suffix, ",-", "") == "," + tail[0];
    }
  }

  lemma TailSpelling(m: Match)
    ensures Join([m.textStart] + TailSegments(m), ",") == m.textStart + Opt(m.textEnd, ",", "") + Opt(m.suffix, ",-", "")
  {
    var tail := TailSegments(m);
    var a, b := Opt(m.textEnd, ",", ""), Opt(m.suffix, ",-", "");
    JoinCons(m.textStart, tail, ",");
    TailJoin(m);
    assert m.textStart + a + b == m.textStart + (a + b);
  }



  /** A match is spelled as the lead followed by its pieces joined with `,`. */
  lemma SpellingSegments(m: Match)
    ensures Spelling(m) == Lead + Join(Segments(m), ",")
  {
    var core := [m.textStart] + TailSegments(m);
    var coreText := m.textStart + Opt(m.textEnd, ",", "") + Opt(m.suffix, ",-", "");
    TailSpelling(m);
    SpellingSplit(m);
    if m.prefix.Some? {
      var first := m.prefix.value + "-";
      JoinCons(first, core, ",");
      assert Opt(m.prefix, "", "-,") == first + ",";
      assert first + "," + coreText == first + ("," + coreText);
    } else {
      assert Segments(m) == core;
    }
  }

  /** The spelling of a match: lead, prefix piece, then the rest. */
  lemma SpellingSplit(m: Match)
    ensures Spelling(m) == Lead + (Opt(m.prefix, "", "-,") + (m.textStart + Opt(m.textEnd, ",", "") + Opt(m.suffix, ",-", "")))
  {
    var p, t, e, x := Opt(m.prefix, "", "-,"), m.textStart, Opt(m.textEnd, ",", ""), Opt(m.suffix, ",-", "");
    assert Lead + p + t + e + x == Lead + (p + (t + e + x));
  }



  lemma {:induction false} JoinBodyChars(segs: seq<string>)
    requires forall i :: 0 <= i < |segs| ==> ValidChars(segs[i])
    ensures BodyChars(Join(segs, ","))
    decreases |segs|
  {
    if |segs| > 1 {
      JoinBodyChars(segs[1..]);
      assert ValidChars(segs[0]);
    } else if |segs| == 1 {
      assert ValidChars(segs[0]);
    }
  }

  lemma SegmentsOfWellFormed(m: Match, rd: Reading)
    requires WellFormed(m, rd)
    ensures var segs := Segments(m);
      && |segs| == Count(ShapeOf(m))
      && (forall i :: 0 <= i < |segs| ==> ValidChars(segs[i]))
      && (forall i :: 0 <= i < |segs| ==> ',' !in segs[i])
  {
    var segs := Segments(m);
    forall i | 0 <= i < |segs| ensures ValidChars(segs[i]) && ',' !in segs[i] {
      assert ValidChars(segs[i]);
    }
  }

  /** Pieces carved in a shape spell out the same pieces again. */
  lemma CarveSound(segs: seq<string>, s: Shape, rd: Reading)
    requires Carve(segs, s, rd).Some?
    ensures var m := Carve(segs, s, rd).value;
      && Segments(m) == segs && ShapeOf(m) == s
      && ((forall i :: 0 <= i < |segs| ==> ValidChars(segs[i])) ==> WellFormed(m, rd))
  {
    var m := Carve(segs, s, rd).value;
    var n := Count(s);
    var p := if s.hasPrefix then 1 else 0;
    if s.hasPrefix {
      assert segs[0][..|segs[0]| - 1] + "-" == segs[0];
    }
    if s.hasSuffix {
      assert "-" + segs[n - 1][1..] == segs[n - 1];
    }
    assert Segments(m) == segs;
    if forall i :: 0 <= i < |segs| ==> ValidChars(segs[i]) {
      assert ValidChars(segs[p]) && ValidChars(segs[0]) && ValidChars(segs[n - 1]);
      if s.hasEnd {
        assert ValidChars(segs[p + 1]);
      }
    }
  }

  /** Every well-formed match is found again by carving its own pieces. */
  lemma CarveComplete(m: Match, rd: Reading)
    requires WellFormed(m, rd)
    ensures Carve(Segments(m), ShapeOf(m), rd) == Some(m)
  {
    var segs := Segments(m);
    if m.prefix.Some? {
      assert segs[0][..|segs[0]| - 1] == m.prefix.value;
    }
    if m.suffix.Some? {
      assert segs[|segs| - 1][1..] == m.suffix.value;
    }
  }

  lemma {:induction false} SearchSound(segs: seq<string>, k: nat, rd: Reading)
    requires k < 8
    requires Search(segs, k, rd).Some?
    ensures var m := Search(segs, k, rd).value;
      && Segments(m) == segs
      && ((forall i :: 0 <= i < |segs| ==> ValidChars(segs[i])) ==> WellFormed(m, rd))
    decreases k
  {
    if Carve(segs, ShapeOfRank(k), rd).Some? {
      CarveSound(segs, ShapeOfRank(k), rd);
    } else {
      SearchSound(segs, k - 1, rd);
    }
  }

  /** The search finds a fitting shape whenever there is one, and none tried
      later than the first that fits. */
  lemma {:induction false} SearchBest(segs: seq<string>, k: nat, j: nat, rd: Reading)
    requires j <= k < 8
    requires Carve(segs, ShapeOfRank(j), rd).Some?
    ensures Search(segs, k, rd).Some?
    ensures Rank(ShapeOf(Search(segs, k, rd).value)) >= j
    decreases k
  {
    if Carve(segs, ShapeOfRank(k), rd).Some? {
      CarveSound(segs, ShapeOfRank(k), rd);
    } else {
      SearchBest(segs, k - 1, j, rd);
    }
  }

  lemma ParseSound(hash: string, body: string, r: Option<Match>, rd: Reading)
    requires StartsWith(hash, Lead) && body == hash[|Lead|..] && BodyChars(body)
    requires r == Search(Split(body, ','), 7, rd)
    ensures r.Some? ==> Reads(hash, r.value, rd)
  {
    if r.Some? {
      var segs := Split(body, ',');
      forall i | 0 <= i < |segs| ensures ValidChars(segs[i]) {
        forall j | 0 <= j < |segs[i]| ensures ValidChar(segs[i][j]) {
          assert segs[i][j] in body;
        }
      }
      SearchSound(segs, 7, rd);
      SpellingSegments(r.value);
      JoinSplit(body, ',', ",");
      ReplaceCharSelf(body, ',');
      assert hash == Lead + body;
    }
  }

  /** Whenever the hash can be read in some way, the pattern matches it, and
      no earlier than that reading's place in the backtracking order. */
  lemma ParseBest(hash: string, m: Match, rd: Reading)
    requires Reads(hash, m, rd)
    ensures Parse(hash, rd).Some?
    ensures Rank(ShapeOf(Parse(hash, rd).value)) >= Rank(ShapeOf(m))
  {
    BodyOfReading(hash, m, rd);
    CarveComplete(m, rd);
    RankShapeOfRank(ShapeOf(m));
    SearchBest(Segments(m), 7, Rank(ShapeOf(m)), rd);
  }

  /** The body of a hash that has a reading: its characters are allowed, and
      it splits at `,` into that reading's pieces. */
  lemma BodyOfReading(hash: string, m: Match, rd: Reading)
    requires Reads(hash, m, rd)
    ensures StartsWith(hash, Lead)
    ensures BodyChars(hash[|Lead|..])
    ensures Split(hash[|Lead|..], ',') == Segments(m)
  {
    var segs := Segments(m);
    SpellingSegments(m);
    SegmentsOfWellFormed(m, rd);
    var body := Join(segs, ",");
    assert hash == Lead + body;
    assert hash[|Lead|..] == body;
    JoinBodyChars(segs);
    SplitJoin(segs, ',');
  }


  /** Two readings of one hash cut it into the same pieces. */
  lemma SameSegments(hash: string, m1: Match, m2: Match, rd: Reading)
    requires Reads(hash, m1, rd) && Reads(hash, m2, rd)
    ensures Segments(m1) == Segments(m2)
  {
    BodyOfReading(hash, m1, rd);
    BodyOfReading(hash, m2, rd);
  }


  /** Two readings of one hash in the same shape are the same reading. */
  lemma ShapeDetermines(hash: string, m1: Match, m2: Match, rd: Reading)
    requires Reads(hash, m1, rd) && Reads(hash, m2, rd)
    requires ShapeOf(m1) == ShapeOf(m2)
    ensures m1 == m2
  {
    SameSegments(hash, m1, m2, rd);
    CarveComplete(m1, rd);
    CarveComplete(m2, rd);
  }

  /** The pattern matches exactly the hashes that have a reading, and then
      it captures the reading that comes first in its backtracking order. */
  lemma ParseIsPreferred(hash: string, rd: Reading)
    ensures Parse(hash, rd).Some? <==> exists m :: Reads(hash, m, rd)
    ensures Parse(hash, rd).Some? ==> Preferred(hash, Parse(hash, rd).value, rd)
  {
    if Parse(hash, rd).Some? {
      forall m' | Reads(hash, m', rd) ensures Rank(ShapeOf(m')) <= Rank(ShapeOf(Parse(hash, rd).value)) {
        ParseBest(hash, m', rd);
      }
    } else {
      forall m | Reads(hash, m, rd) ensures false {
        ParseBest(hash, m, rd);
      }
    }
  }

  /** There is at most one preferred reading. */
  lemma PreferredUnique(hash: string, m1: Match, m2: Match, rd: Reading)
    requires Preferred(hash, m1, rd) && Preferred(hash, m2, rd)
    ensures m1 == m2
  {
    RankShapeOfRank(ShapeOf(m1));
    RankShapeOfRank(ShapeOf(m2));
    ShapeDetermines(hash, m1, m2, rd);
  }
}
