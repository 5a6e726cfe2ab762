/** The few JavaScript built-ins the converter relies on, stated on Dafny strings:
    `String.prototype.toLowerCase` (ASCII letters only), `Array.prototype.indexOf`
    with strict equality, and `split` / `join` with a one-character separator. */
module JsBuiltins {

  /** True of the ASCII capital letters 'A' .. 'Z'. */
  predicate IsAsciiUpper(c: char) {
    'A' <= c <= 'Z'
  }

  /** Lower-cases one character; characters other than 'A' .. 'Z' are left alone. */
  function LowerChar(c: char): (r: char)
    ensures !IsAsciiUpper(r)
    ensures !IsAsciiUpper(c) ==> r == c
    ensures IsAsciiUpper(c) ==> r as int == c as int + ('a' as int - 'A' as int)
  {
    if IsAsciiUpper(c) then (c as int + ('a' as int - 'A' as int)) as char else c
  }

  /** True when no character of `s` is an ASCII capital letter. */
  predicate IsLowerCase(s: string) {
    forall i :: 0 <= i < |s| ==> !IsAsciiUpper(s[i])
  }

  /** `s.toLowerCase()`, restricted to ASCII case folding: the result has the same
      length and lower-cases every character in place. */
  function ToLowerCase(s: string): (r: string)
    ensures |r| == |s|
    ensures forall i :: 0 <= i < |s| ==> r[i] == LowerChar(s[i])
    ensures IsLowerCase(r)
  {
    if s == [] then [] else [LowerChar(s[0])] + ToLowerCase(s[1..])
  }

  /** Lower-casing a string that has no capital letter changes nothing. */
  lemma LowerCaseFixed(s: string)
    requires IsLowerCase(s)
    ensures ToLowerCase(s) == s
  {
    var r := ToLowerCase(s);
    assert forall i :: 0 <= i < |s| ==> r[i] == s[i];
  }

  /** Lower-casing twice is lower-casing once. */
  lemma LowerCaseIdempotent(s: string)
    ensures ToLowerCase(ToLowerCase(s)) == ToLowerCase(s)
  {
    LowerCaseFixed(ToLowerCase(s));
  }

  /** `xs.indexOf(x)`: the first index holding `x`, or -1 when there is none. */
  function IndexOf(xs: seq<string>, x: string): (r: int)
    ensures -1 <= r < |xs|
    ensures r == -1 <==> x !in xs
    ensures 0 <= r ==> xs[r] == x && x !in xs[..r]
  {
    if xs == [] then -1
    else if xs[0] == x then 0
    else
      var k := IndexOf(xs[1..], x);
      if k == -1 then -1
      else
        assert xs[..k + 1] == [xs[0]] + xs[1..][..k];
        k + 1
  }

  /** The separator used for file names. */
  const Dot: char := '.'

  /** Number of occurrences of `c` in `s`. */
  function Count(s: string, c: char): nat {
    if s == [] then 0 else (if s[0] == c then 1 else 0) + Count(s[1..], c)
  }

  /** `s.split(".")`: the maximal dot-free segments of `s`, in order. Like
      JavaScript's `split` with a non-empty separator, the result is never empty:
      the empty string splits into one empty segment. */
  function Split(s: string): (r: seq<string>)
    ensures |r| >= 1
    ensures |r| == Count(s, Dot) + 1
    ensures forall i :: 0 <= i < |r| ==> Dot !in r[i]
  {
    if s == [] then [""]
    else
      var rest := Split(s[1..]);
      if s[0] == Dot then [""] + rest
      else [[s[0]] + rest[0]] + rest[1..]
  }

  /** Total length of the segments. */
  function SumLen(parts: seq<string>): nat {
    if parts == [] then 0 else |parts[0]| + SumLen(parts[1..])
  }

  /** `parts.join(".")`: the parts with one dot between neighbours; the empty
      array joins to the empty string. A non-empty list joins to its segments'
      characters plus one dot fewer than it has segments. */
  function Join(parts: seq<string>): (r: string)
    ensures |parts| >= 1 ==> |r| == SumLen(parts) + |parts| - 1
  {
    if parts == [] then ""
    else if |parts| == 1 then parts[0]
    else parts[0] + [Dot] + Join(parts[1..])
  }

  /** Joining a segment list with one more segment adds a dot and that segment. */
  lemma {:induction false} JoinAppend(parts: seq<string>, x: string)
    requires |parts| >= 1
    ensures Join(parts + [x]) == Join(parts) + [Dot] + x
  {
    if |parts| == 1 {
      assert parts + [x] == [parts[0], x];
      assert [parts[0], x][1..] == [x];
    } else {
      assert (parts + [x])[1..] == parts[1..] + [x];
      JoinAppend(parts[1..], x);
    }
  }

  /** Joining the segments of a split gives back the string that was split. */
  lemma {:induction false} JoinSplit(s: string)
    ensures Join(Split(s)) == s
  {
    if s != [] {
      var rest := Split(s[1..]);
      JoinSplit(s[1..]);
      if s[0] == Dot {
        assert ([""] + rest)[1..] == rest;
      } else if |rest| > 1 {
        var r := [[s[0]] + rest[0]] + rest[1..];
        assert r[1..] == rest[1..];
        assert Join(rest) == rest[0] + [Dot] + Join(rest[1..]);
      }
    }
  }

  /** A string with no dot is a single segment, and only such a string is. */
  lemma {:induction false} SplitSingle(s: string)
    ensures Split(s) == [s] <==> Dot !in s
  {
    if Split(s) == [s] {
      assert Split(s)[0] == s;
    }
    if Dot !in s && s != [] {
      assert Dot !in s[1..] by {
        forall i | 0 <= i < |s[1..]| ensures s[1..][i] != Dot { assert s[1..][i] == s[i + 1]; }
      }
      SplitSingle(s[1..]);
      assert s == [s[0]] + s[1..];
    }
  }

  /** Splitting `a + "." + b` splits `a` and `b` separately. */
  lemma {:induction false} SplitConcat(a: string, b: string)
    ensures Split(a + [Dot] + b) == Split(a) + Split(b)
  {
    var s := a + [Dot] + b;
    if a == [] {
      assert s == [Dot] + b;
      assert s[1..] == b;
    } else {
      assert s[0] == a[0];
      assert s[1..] == a[1..] + [Dot] + b;
      SplitConcat(a[1..], b);
    }
  }

  /** Splitting a join of non-empty, dot-free segments gives back the segments. */
  lemma {:induction false} SplitJoin(parts: seq<string>)
    requires |parts| >= 1
    requires forall i :: 0 <= i < |parts| ==> Dot !in parts[i]
    ensures Split(Join(parts)) == parts
  {
    SplitSingle(parts[0]);
    if |parts| > 1 {
      SplitJoin(parts[1..]);
      SplitConcat(parts[0], Join(parts[1..]));
      assert parts == [parts[0]] + parts[1..];
    }
  }
}
