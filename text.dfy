/** Character-sequence operations with the meaning of the Java library calls the
    request handler makes: `String.split` on a one-character pattern,
    `String.endsWith`, `File.getName`, and the decimal form of an integer that
    string concatenation produces. */
module Text {

  import opened Wrappers

  /** Every piece of `s` between two occurrences of `c`, empty ones included: the
      list a split builds before it drops trailing empty strings. */
  function Pieces(s: string, c: char): (r: seq<string>)
    ensures |r| >= 1
    ensures forall i :: 0 <= i < |r| ==> c !in r[i]
  {
    if |s| == 0 then [""]
    else
      var tail := Pieces(s[1..], c);
      if s[0] == c then [""] + tail else [[s[0]] + tail[0]] + tail[1..]
  }

  /** The pieces glued back together with one `c` between each two. */
  function Join(ps: seq<string>, c: char): string
  {
    if |ps| == 0 then "" else if |ps| == 1 then ps[0] else ps[0] + [c] + Join(ps[1..], c)
  }

  /** Gluing the pieces back together gives the string that was split. */
  lemma {:induction false} JoinPieces(s: string, c: char)
    ensures Join(Pieces(s, c), c) == s
  {
    if |s| > 0 {
      JoinPieces(s[1..], c);
      var tail := Pieces(s[1..], c);
      if s[0] == c {
        assert Pieces(s, c) == [""] + tail;
        assert ([""] + tail)[1..] == tail;
        assert s == [c] + s[1..];
      } else {
        var r := Pieces(s, c);
        assert r == [[s[0]] + tail[0]] + tail[1..];
        if |tail| == 1 {
          assert s == [s[0]] + s[1..];
        } else {
          assert r[1..] == tail[1..];
          assert Join(tail, c) == tail[0] + [c] + Join(tail[1..], c);
          assert s == [s[0]] + s[1..];
        }
      }
    }
  }

  /** A string without the separator is a single piece. */
  lemma {:induction false} PiecesOfFree(s: string, c: char)
    requires c !in s
    ensures Pieces(s, c) == [s]
  {
    if |s| > 0 {
      PiecesOfFree(s[1..], c);
      assert [s[0]] + s[1..] == s;
    }
  }

  /** A separator in front starts a new, empty first piece. */
  lemma PiecesConsSeparator(rest: string, c: char)
    ensures Pieces([c] + rest, c) == [""] + Pieces(rest, c)
  {
    assert ([c] + rest)[1..] == rest;
  }

  /** Any other character in front joins the first piece. */
  lemma PiecesConsOther(x: char, rest: string, c: char)
    requires x != c
    ensures var t := Pieces(rest, c); Pieces([x] + rest, c) == [[x] + t[0]] + t[1..]
  {
    assert ([x] + rest)[1..] == rest;
  }

  /** A character in front of a string whose pieces are `ta + pb` changes only
      the pieces from `ta`. */
  lemma PiecesConsAppend(x: char, rest: string, ta: seq<string>, pb: seq<string>, c: char)
    requires |ta| >= 1 && Pieces(rest, c) == ta + pb
    ensures Pieces([x] + rest, c)
         == (if x == c then [""] + ta else [[x] + ta[0]] + ta[1..]) + pb
  {
    if x == c {
      PiecesConsSeparator(rest, c);
      assert [""] + (ta + pb) == ([""] + ta) + pb;
    } else {
      PiecesConsOther(x, rest, c);
      var t := ta + pb;
      assert t[0] == ta[0] && t[1..] == ta[1..] + pb;
      assert [[x] + ta[0]] + (ta[1..] + pb) == ([[x] + ta[0]] + ta[1..]) + pb;
    }
  }

  /** One step of `PiecesAround`: a character put in front of the left side. */
  lemma PiecesAroundStep(x: char, a: string, b: string, c: char)
    requires Pieces(a + [c] + b, c) == Pieces(a, c) + Pieces(b, c)
    ensures Pieces([x] + a + [c] + b, c) == Pieces([x] + a, c) + Pieces(b, c)
  {
    var ta, pb := Pieces(a, c), Pieces(b, c);
    assert [x] + a + [c] + b == [x] + (a + [c] + b);
    PiecesConsAppend(x, a + [c] + b, ta, pb, c);
    PiecesConsAppend(x, a, ta, [], c);
    assert ta + [] == ta;
  }

  /** Splitting at one separator splits the two sides independently. */
  lemma {:induction false} PiecesAround(a: string, b: string, c: char)
    ensures Pieces(a + [c] + b, c) == Pieces(a, c) + Pieces(b, c)
  {
    if |a| == 0 {
      assert a + [c] + b == [c] + b;
      PiecesConsSeparator(b, c);
    } else {
      PiecesAround(a[1..], b, c);
      PiecesAroundStep(a[0], a[1..], b, c);
      assert a == [a[0]] + a[1..];
    }
  }

  /** Gluing pieces that do not contain the separator and splitting again gives
      them back. */
  lemma {:induction false} PiecesJoin(ps: seq<string>, c: char)
    requires |ps| >= 1
    requires forall i :: 0 <= i < |ps| ==> c !in ps[i]
    ensures Pieces(Join(ps, c), c) == ps
  {
    if |ps| == 1 {
      PiecesOfFree(ps[0], c);
    } else {
      PiecesJoin(ps[1..], c);
      PiecesAround(ps[0], Join(ps[1..], c), c);
      PiecesOfFree(ps[0], c);
      assert [ps[0]] + ps[1..] == ps;
    }
  }

  /** The list without its trailing empty strings. */
  function DropTrailingEmpty(ps: seq<string>): (r: seq<string>)
    ensures |r| <= |ps| && r == ps[..|r|]
    ensures forall i :: |r| <= i < |ps| ==> ps[i] == ""
    ensures r == [] || r[|r| - 1] != ""
  {
    if |ps| == 0 then []
    else if ps[|ps| - 1] == "" then DropTrailingEmpty(ps[..|ps| - 1])
    else ps
  }

  /** `s.split(p)` in Java, for a one-character pattern `p` that is not a regular
      expression metacharacter (or is escaped): without an occurrence the result is
      the whole string, otherwise every piece with the trailing empty ones
      removed. Leading and inner empty pieces stay. */
  function Split(s: string, c: char): (r: seq<string>)
    ensures forall i :: 0 <= i < |r| ==> c !in r[i]
    ensures c !in s ==> r == [s]
    ensures c in s ==> r == [] || r[|r| - 1] != ""
  {
    if c !in s then [s] else DropTrailingEmpty(Pieces(s, c))
  }

  /** Split undoes Join on any list of separator-free pieces whose last piece
      is not empty (or that has only one piece). */
  lemma SplitJoin(ps: seq<string>, c: char)
    requires |ps| >= 1
    requires forall i :: 0 <= i < |ps| ==> c !in ps[i]
    requires |ps| == 1 || ps[|ps| - 1] != ""
    ensures Split(Join(ps, c), c) == ps
  {
    if |ps| > 1 {
      var s := Join(ps, c);
      assert s == ps[0] + [c] + Join(ps[1..], c);
      assert s[|ps[0]|] == c;
      PiecesJoin(ps, c);
    }
  }

  /** A string made only of separators splits into nothing at all. */
  lemma {:induction false} SplitOnlySeparators(s: string, c: char)
    requires |s| >= 1
    requires forall i :: 0 <= i < |s| ==> s[i] == c
    ensures Split(s, c) == []
  {
    assert s[0] == c;
    EmptyPieces(s, c);
    AllEmptyDropped(Pieces(s, c));
  }

  lemma {:induction false} EmptyPieces(s: string, c: char)
    requires forall i :: 0 <= i < |s| ==> s[i] == c
    ensures forall i :: 0 <= i < |Pieces(s, c)| ==> Pieces(s, c)[i] == ""
  {
    if |s| > 0 {
      EmptyPieces(s[1..], c);
    }
  }

  lemma {:induction false} AllEmptyDropped(ps: seq<string>)
    requires forall i :: 0 <= i < |ps| ==> ps[i] == ""
    ensures DropTrailingEmpty(ps) == []
  {
    if |ps| > 0 {
      AllEmptyDropped(ps[..|ps| - 1]);
    }
  }

  /** One more separator at the end changes nothing for a non-empty string. */
  lemma SplitTrailingSeparator(s: string, c: char)
    requires s != ""
    ensures Split(s + [c], c) == Split(s, c)
  {
    PiecesAround(s, "", c);
    assert s + [c] + "" == s + [c];
    assert Pieces(s + [c], c) == Pieces(s, c) + [""];
    assert (Pieces(s, c) + [""])[..|Pieces(s, c)|] == Pieces(s, c);
    assert (s + [c])[|s|] == c;
    if c !in s {
      PiecesOfFree(s, c);
    }
  }

  /** `s.endsWith(suffix)` in Java. */
  predicate EndsWith(s: string, suffix: string)
  {
    |suffix| <= |s| && s[|s| - |suffix|..] == suffix
  }

  /** A string ends with `suffix` exactly when it is some stem followed by
      `suffix`. */
  lemma EndsWithMeans(s: string, suffix: string)
    ensures EndsWith(s, suffix) <==> exists stem :: s == stem + suffix
  {
    if EndsWith(s, suffix) {
      assert s == s[..|s| - |suffix|] + suffix;
    }
    forall stem | s == stem + suffix
      ensures EndsWith(s, suffix)
    {
      assert s[|s| - |suffix|..] == suffix;
    }
  }

  /** The part of `p` after its last '/', or the whole of `p` if it has none:
      what `File.getName` returns for a path in normal form. */
  function FileName(p: string): (r: string)
    ensures '/' !in r
    ensures EndsWith(p, r)
    ensures |r| < |p| ==> p[|p| - |r| - 1] == '/'
  {
    if |p| == 0 then ""
    else if p[|p| - 1] == '/' then ""
    else FileName(p[..|p| - 1]) + [p[|p| - 1]]
  }

  /** A suffix without '/' stays at the end of the file name. */
  lemma FileNameKeepsSuffix(p: string, suffix: string)
    requires '/' !in suffix && EndsWith(p, suffix)
    ensures EndsWith(FileName(p), suffix)
  {
    var r := FileName(p);
    assert p[|p| - |suffix|..] == r[|r| - |suffix|..];
  }

  /** The file name is exactly what follows the last '/'. */
  lemma FileNameAfterSlash(dir: string, name: string)
    requires '/' !in name
    ensures FileName(dir + "/" + name) == name
  {
    var p := dir + "/" + name;
    var r := FileName(p);
    assert p[|p| - |name| - 1] == '/';
    assert p[|p| - |name|..] == name;
  }

  /** Whether a character is a decimal digit. */
  predicate IsDigit(ch: char)
  {
    '0' <= ch <= '9'
  }

  function Digit(d: nat): (ch: char)
    requires d < 10
    ensures IsDigit(ch) && ch as int - '0' as int == d
  {
    ('0' as int + d) as char
  }

  /** The decimal numeral of `n`, as Java writes an `int` or a `long` into a string:
      digits only, at least one, and no leading zero. */
  function Decimal(n: nat): (r: string)
    ensures |r| >= 1
    ensures forall i :: 0 <= i < |r| ==> IsDigit(r[i])
    ensures |r| > 1 ==> r[0] != '0'
  {
    if n < 10 then [Digit(n)] else Decimal(n / 10) + [Digit(n % 10)]
  }

  function DigitValue(ch: char): (d: nat)
    requires IsDigit(ch)
    ensures d < 10
  {
    ch as int - '0' as int
  }

  /** The number a string of digits denotes. */
  function DecimalValue(s: string): nat
    requires forall i :: 0 <= i < |s| ==> IsDigit(s[i])
  {
    if |s| == 0 then 0
    else DecimalValue(s[..|s| - 1]) * 10 + DigitValue(s[|s| - 1])
  }

  /** Reading a numeral back gives the number written. */
  lemma {:induction false} DecimalRoundTrip(n: nat)
    ensures DecimalValue(Decimal(n)) == n
  {
    if n >= 10 {
      DecimalRoundTrip(n / 10);
      var r := Decimal(n);
      assert r[..|r| - 1] == Decimal(n / 10);
    }
  }

  /** Different numbers have different numerals. */
  lemma DecimalInjective(m: nat, n: nat)
    requires Decimal(m) == Decimal(n)
    ensures m == n
  {
    DecimalRoundTrip(m);
    DecimalRoundTrip(n);
  }

  /** The text before the first `c` in `s` and the text after it; `None` when `s`
      has no `c`. */
  function TakeUntil(s: string, c: char): (r: Option<(string, string)>)
    ensures r.None? <==> c !in s
    ensures r.Some? ==> c !in r.value.0 && s == r.value.0 + [c] + r.value.1
  {
    if |s| == 0 then None
    else if s[0] == c then Some(("", s[1..]))
    else match TakeUntil(s[1..], c)
      case None => None
      case Some((a, b)) => Some(([s[0]] + a, b))
  }

  /** TakeUntil finds exactly the first occurrence. */
  lemma {:induction false} TakeUntilFirst(a: string, b: string, c: char)
    requires c !in a
    ensures TakeUntil(a + [c] + b, c) == Some((a, b))
  {
    if |a| == 0 {
      assert a + [c] + b == [c] + b;
    } else {
      var s := a + [c] + b;
      TakeUntilFirst(a[1..], b, c);
      assert s[0] == a[0] && s[1..] == a[1..] + [c] + b;
      assert TakeUntil(s, c) == Some(([a[0]] + a[1..], b));
      assert [a[0]] + a[1..] == a;
    }
  }
}
