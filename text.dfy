/** String operations of the JavaScript standard library that the core calls, on `seq<char>`. */
module Text {

  import opened Tables

  predicate IsUpperAscii(c: char) { 'A' <= c <= 'Z' }

  /** `String.prototype.toLowerCase` restricted to ASCII letters. */
  function LowerChar(c: char): (r: char)
    ensures IsUpperAscii(c) ==> r as int == c as int + 32
    ensures !IsUpperAscii(c) ==> r == c
  {
    if IsUpperAscii(c) then (c as int + 32) as char else c
  }

  function Lower(s: string): (r: string)
    ensures |r| == |s|
    ensures forall i :: 0 <= i < |s| ==> r[i] == LowerChar(s[i])
  {
    seq(|s|, i requires 0 <= i < |s| => LowerChar(s[i]))
  }

  /** Lower-casing works character by character, so it distributes over concatenation. */
  lemma LowerAppend(a: string, b: string)
    ensures Lower(a + b) == Lower(a) + Lower(b)
  {
  }

  lemma LowerIdempotent(s: string)
    ensures Lower(Lower(s)) == Lower(s)
  {
  }

  predicate StartsWith(s: string, prefix: string) {
    |prefix| <= |s| && s[..|prefix|] == prefix
  }

  predicate OccursAt(s: string, pat: string, i: nat) {
    i + |pat| <= |s| && s[i..i + |pat|] == pat
  }

  /** `s.indexOf(pat)`: the first position at which `pat` occurs in `s`. */
  function FindFirst(s: string, pat: string): (r: Option<nat>)
    ensures r.Some? ==> OccursAt(s, pat, r.value)
    ensures r.Some? ==> forall j :: 0 <= j < r.value ==> !OccursAt(s, pat, j)
    ensures r.None? ==> forall j :: 0 <= j <= |s| ==> !OccursAt(s, pat, j)
    decreases |s|
  {
    if StartsWith(s, pat) then Some(0)
    else if |s| == 0 then None
    else match FindFirst(s[1..], pat)
      case None =>
        assert forall j :: 1 <= j <= |s| ==> !OccursAt(s, pat, j) by {
          forall j | 1 <= j <= |s| ensures !OccursAt(s, pat, j) { OccursShift(s, pat, j - 1); }
        }
        None
      case Some(k) =>
        assert forall j :: 1 <= j < k + 1 ==> !OccursAt(s, pat, j) by {
          forall j | 1 <= j < k + 1 ensures !OccursAt(s, pat, j) { OccursShift(s, pat, j - 1); }
        }
        OccursShift(s, pat, k);
        Some(k + 1)
  }

  /** An occurrence after the first character of `s` is an occurrence in `s[1..]`. */
  lemma OccursShift(s: string, pat: string, j: nat)
    requires |s| > 0
    ensures OccursAt(s, pat, j + 1) <==> OccursAt(s[1..], pat, j)
  {
    if j + 1 + |pat| <= |s| {
      assert s[j + 1..j + 1 + |pat|] == s[1..][j..j + |pat|];
    }
  }

  /** `s.includes(pat)`. */
  predicate Contains(s: string, pat: string) {
    FindFirst(s, pat).Some?
  }

  /** `s.replace(pat, rep)` with a string pattern: only the first occurrence is replaced. */
  function ReplaceFirst(s: string, pat: string, rep: string): (r: string)
    ensures FindFirst(s, pat).None? ==> r == s
    ensures FindFirst(s, pat).Some? ==>
      var i := FindFirst(s, pat).value; r == s[..i] + rep + s[i + |pat|..]
  {
    match FindFirst(s, pat)
    case None => s
    case Some(i) => s[..i] + rep + s[i + |pat|..]
  }

  /** `s.replace(/x/g, y)` for single characters `x` and `y`. */
  function ReplaceAllChar(s: string, x: char, y: char): (r: string)
    ensures |r| == |s|
    ensures x != y ==> x !in r
    ensures forall i :: 0 <= i < |s| ==> r[i] == (if s[i] == x then y else s[i])
  {
    seq(|s|, i requires 0 <= i < |s| => if s[i] == x then y else s[i])
  }

  /** `a` is what `b` ends with. */
  predicate IsSuffix(a: string, b: string) {
    |a| <= |b| && a == b[|b| - |a|..]
  }

  lemma SuffixTrans(a: string, b: string, c: string)
    requires IsSuffix(a, b) && IsSuffix(b, c)
    ensures IsSuffix(a, c)
  {
    assert c[|c| - |b|..][|b| - |a|..] == c[|c| - |a|..];
  }

  /** Joins `parts` with the separator `sep` between neighbours. */
  function Join(parts: seq<string>, sep: char): string
    requires |parts| > 0
  {
    if |parts| == 1 then parts[0] else Join(parts[..|parts| - 1], sep) + [sep] + parts[|parts| - 1]
  }

  /** `s.split(sep)` for a one-character separator: never empty, no part contains the
      separator, and joining the parts back gives `s`, which makes the split unique. */
  function Split(s: string, sep: char): (r: seq<string>)
    ensures |r| > 0
    ensures forall k :: 0 <= k < |r| ==> sep !in r[k]
    ensures Join(r, sep) == s
  {
    if |s| == 0 then [""]
    else
      var init := Split(s[..|s| - 1], sep);
      var c := s[|s| - 1];
      assert s == s[..|s| - 1] + [c];
      if c == sep then init + [""]
      else
        var last := init[|init| - 1] + [c];
        JoinExtendLast(init, sep, c);
        init[..|init| - 1] + [last]
  }

  /** Extending the last part by `c` extends the joined string by `c`. */
  lemma JoinExtendLast(parts: seq<string>, sep: char, c: char)
    requires |parts| > 0
    ensures Join(parts[..|parts| - 1] + [parts[|parts| - 1] + [c]], sep) == Join(parts, sep) + [c]
  {
    var extended := parts[..|parts| - 1] + [parts[|parts| - 1] + [c]];
    if |parts| > 1 {
      assert extended[..|parts| - 1] == parts[..|parts| - 1];
    }
  }

  /** `s.split(sep).pop()`. */
  function LastPart(s: string, sep: char): string {
    var parts := Split(s, sep); parts[|parts| - 1]
  }

  /** The last part is the suffix of `s` after its last separator, or all of `s` when it has none. */
  lemma {:induction false} LastPartIsSuffix(s: string, sep: char)
    ensures var t := LastPart(s, sep);
      sep !in t && |t| <= |s| && s[|s| - |t|..] == t &&
      (sep in s ==> |t| < |s| && s[|s| - |t| - 1] == sep) &&
      (sep !in s ==> t == s)
  {
    var parts := Split(s, sep);
    if |parts| == 1 {
      assert Join(parts, sep) == parts[0];
    } else {
      var front := Join(parts[..|parts| - 1], sep);
      assert s == front + [sep] + parts[|parts| - 1];
      assert sep in s by { assert s[|front|] == sep; }
    }
  }
}
