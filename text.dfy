/** String and byte helpers shared by the codec: the byte type, an Option
    wrapper, and the JavaScript string operations the editor relies on
    (String.prototype.split with a one-character separator,
    Array.prototype.join, dropping empty strings). */
module Text {

  /** An octet of the UTF-8 form of a part. */
  newtype byte = b: int | 0 <= b < 256

  datatype Option<T> = None | Some(value: T) {
    /** The wrapped value, or `default` when there is none. */
    function GetOr(default: T): T {
      if Some? then value else default
    }
  }

  predicate StartsWith(s: string, lead: string) {
    |lead| <= |s| && s[..|lead|] == lead
  }

  predicate IsAscii(s: string) {
    forall i :: 0 <= i < |s| ==> (s[i] as int) < 128
  }

  /** The bytes of an ASCII string. */
  function Ascii(s: string): (r: seq<byte>)
    requires IsAscii(s)
    ensures |r| == |s|
    ensures forall i :: 0 <= i < |s| ==> r[i] as int == s[i] as int
  {
    if s == [] then [] else [s[0] as int as byte] + Ascii(s[1..])
  }

  /** `s.split(sep)`: the maximal runs of `s` free of `sep`, in order; there is
      always at least one (the empty string splits into `[""]`). */
  function Split(s: string, sep: char): (r: seq<string>)
    ensures |r| > 0
    ensures forall i :: 0 <= i < |r| ==> sep !in r[i]
    ensures forall i, j :: 0 <= i < |r| && 0 <= j < |r[i]| ==> r[i][j] in s
    decreases |s|
  {
    if s == [] then [[]]
    else
      var rest := Split(s[1..], sep);
      if s[0] == sep then [[]] + rest
      else [[s[0]] + rest[0]] + rest[1..]
  }

  /** The total length of the strings of `segs`. */
  function TotalLength(segs: seq<string>): nat
  {
    if segs == [] then 0 else |segs[0]| + TotalLength(segs[1..])
  }

  /** `segs.join(sep)`: the pieces with one separator between neighbours. */
  function Join(segs: seq<string>, sep: string): string
  {
    if |segs| == 0 then []
    else if |segs| == 1 then segs[0]
    else segs[0] + sep + Join(segs[1..], sep)
  }

  /** A join is as long as its pieces plus one separator between each pair
      of neighbours. */
  lemma {:induction false} JoinLength(segs: seq<string>, sep: string)
    ensures |segs| > 0 ==> |Join(segs, sep)| == TotalLength(segs) + (|segs| - 1) * |sep|
    ensures |segs| == 0 ==> Join(segs, sep) == []
    decreases |segs|
  {
    if |segs| > 1 {
      JoinLength(segs[1..], sep);
    }
  }

  /** `s` with every occurrence of `c` replaced by `rep`. */
  function ReplaceChar(s: string, c: char, rep: string): string
  {
    if s == [] then [] else (if s[0] == c then rep else [s[0]]) + ReplaceChar(s[1..], c, rep)
  }

  /** `xs.filter(Boolean)` on strings: the non-empty ones, in order. */
  function DropEmpty(xs: seq<string>): (r: seq<string>)
    ensures forall i :: 0 <= i < |r| ==> r[i] != []
    ensures |r| <= |xs|
  {
    if xs == [] then []
    else if xs[0] == [] then DropEmpty(xs[1..])
    else [xs[0]] + DropEmpty(xs[1..])
  }

  /** Filtering a concatenation filters each part and keeps their order. */
  lemma {:induction false} DropEmptyAppend(xs: seq<string>, ys: seq<string>)
    ensures DropEmpty(xs + ys) == DropEmpty(xs) + DropEmpty(ys)
    decreases |xs|
  {
    if xs != [] {
      assert (xs + ys)[0] == xs[0];
      assert (xs + ys)[1..] == xs[1..] + ys;
      DropEmptyAppend(xs[1..], ys);
    } else {
      assert xs + ys == ys;
    }
  }

  /** Filtering keeps exactly the non-empty strings. */
  lemma {:induction false} DropEmptyMembers(xs: seq<string>)
    ensures forall x :: x in DropEmpty(xs) <==> x in xs && x != []
    decreases |xs|
  {
    if xs != [] {
      DropEmptyMembers(xs[1..]);
      assert xs == [xs[0]] + xs[1..];
    }
  }

  lemma {:induction false} ReplaceCharAppend(a: string, b: string, c: char, rep: string)
    ensures ReplaceChar(a + b, c, rep) == ReplaceChar(a, c, rep) + ReplaceChar(b, c, rep)
    decreases |a|
  {
    if a != [] {
      assert (a + b)[1..] == a[1..] + b;
      ReplaceCharAppend(a[1..], b, c, rep);
    } else {
      assert a + b == b;
    }
  }

  /** Replacing a character that does not occur changes nothing. */
  lemma {:induction false} ReplaceCharAbsent(s: string, c: char, rep: string)
    requires c !in s
    ensures ReplaceChar(s, c, rep) == s
    decreases |s|
  {
    if s != [] {
      assert s[0] in s;
      assert forall x :: x in s[1..] ==> x in s;
      ReplaceCharAbsent(s[1..], c, rep);
      assert [s[0]] + s[1..] == s;
    }
  }

  /** Replacing a character by itself changes nothing. */
  lemma {:induction false} ReplaceCharSelf(s: string, c: char)
    ensures ReplaceChar(s, c, [c]) == s
    decreases |s|
  {
    if s != [] {
      ReplaceCharSelf(s[1..], c);
    }
  }

  /** `s.split(sep).join(rep)` replaces every `sep` in `s` by `rep`. */
  lemma {:induction false} JoinSplit(s: string, sep: char, rep: string)
    ensures Join(Split(s, sep), rep) == ReplaceChar(s, sep, rep)
    decreases |s|
  {
    if s != [] {
      JoinSplit(s[1..], sep, rep);
      var rest := Split(s[1..], sep);
      if s[0] == sep {
        assert ([[]] + rest)[1..] == rest;
      } else {
        var segs := [[s[0]] + rest[0]] + rest[1..];
        if |rest| > 1 {
          assert segs[1..] == rest[1..];
          assert Join(rest, rep) == rest[0] + rep + Join(rest[1..], rep);
        }
      }
    }
  }

  /** Joining with `sep` and splitting at `sep` again gives back the pieces,
      provided no piece contains `sep`. */
  lemma {:induction false} SplitJoin(segs: seq<string>, sep: char)
    requires |segs| > 0
    requires forall i :: 0 <= i < |segs| ==> sep !in segs[i]
    ensures Split(Join(segs, [sep]), sep) == segs
    decreases |segs|
  {
    if |segs| == 1 {
      SplitFree(segs[0], sep);
    } else {
      SplitJoin(segs[1..], sep);
      SplitAfter(segs[0], Join(segs[1..], [sep]), sep);
      assert segs == [segs[0]] + segs[1..];
    }
  }

  lemma {:induction false} SplitFree(s: string, sep: char)
    requires sep !in s
    ensures Split(s, sep) == [s]
    decreases |s|
  {
    if s != [] {
      assert s[0] in s;
      assert forall x :: x in s[1..] ==> x in s;
      SplitFree(s[1..], sep);
      assert [s[0]] + s[1..] == s;
    }
  }

  lemma {:induction false} SplitAfter(a: string, t: string, sep: char)
    requires sep !in a
    ensures Split(a + [sep] + t, sep) == [a] + Split(t, sep)
    decreases |a|
  {
    var s := a + [sep] + t;
    if a == [] {
      assert s[1..] == t;
    } else {
      assert s[1..] == a[1..] + [sep] + t;
      SplitAfter(a[1..], t, sep);
      assert [s[0]] + a[1..] == a;
    }
  }

  lemma JoinEmptySepCons(x: string, xs: seq<string>)
    ensures Join([x] + xs, []) == x + Join(xs, [])
  {
    if xs == [] {
      assert [x] + xs == [x];
    } else {
      assert ([x] + xs)[1..] == xs;
    }
  }

  /** Dropping the empty strings before `.join('')` changes nothing. */
  lemma {:induction false} JoinDropEmpty(xs: seq<string>)
    ensures Join(DropEmpty(xs), []) == Join(xs, [])
    decreases |xs|
  {
    if xs != [] {
      JoinDropEmpty(xs[1..]);
      JoinEmptySepCons(xs[0], xs[1..]);
      assert xs == [xs[0]] + xs[1..];
      if xs[0] != [] {
        JoinEmptySepCons(xs[0], DropEmpty(xs[1..]));
      }
    }
  }
}
