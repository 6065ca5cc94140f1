/** The JavaScript string operations the renderer and the main process rely on:
    white space as `\s` and `String.prototype.trim` see it, `split` on a
    character and on `/\s+/`, `join`, `includes`, `toLowerCase` and the decimal
    rendering of a count in a template string. */
module Text {
  import opened Common

  /** The characters JavaScript's `\s` matches and `trim` removes: the
      WhiteSpace and LineTerminator code points of ECMAScript. */
  predicate IsSpace(c: char) {
    || c == ' ' || c == '\t' || c == '\n' || c == '\r' || c == '\U{B}' || c == '\U{C}'
    || c == '\U{A0}' || c == '\U{1680}' || ('\U{2000}' <= c <= '\U{200A}')
    || c == '\U{2028}' || c == '\U{2029}' || c == '\U{202F}' || c == '\U{205F}'
    || c == '\U{3000}' || c == '\U{FEFF}'
  }

  /** The characters a regular-expression `.` refuses to match. */
  predicate IsLineTerminator(c: char) {
    c == '\n' || c == '\r' || c == '\U{2028}' || c == '\U{2029}'
  }

  predicate IsDigit(c: char) {
    '0' <= c <= '9'
  }

  predicate AllSpace(s: string) {
    forall i :: 0 <= i < |s| ==> IsSpace(s[i])
  }

  predicate NoSpace(s: string) {
    forall i :: 0 <= i < |s| ==> !IsSpace(s[i])
  }

  predicate NoLineTerminator(s: string) {
    forall i :: 0 <= i < |s| ==> !IsLineTerminator(s[i])
  }

  lemma AllSpaceTake(s: string, k: nat)
    requires k <= |s| && AllSpace(s[..k])
    ensures forall y :: 0 <= y < k ==> IsSpace(s[y])
  {
    forall y | 0 <= y < k
      ensures IsSpace(s[y])
    {
      assert s[..k][y] == s[y];
    }
  }

  lemma AllSpaceDrop(s: string, k: nat)
    requires k <= |s| && AllSpace(s[k..])
    ensures forall y :: k <= y < |s| ==> IsSpace(s[y])
  {
    forall y | k <= y < |s|
      ensures IsSpace(s[y])
    {
      assert s[k..][y - k] == s[y];
    }
  }

  lemma AllSpaceWithin(s: string, lo: nat, hi: nat, lo': nat, hi': nat)
    requires lo <= lo' <= hi' <= hi <= |s| && AllSpace(s[lo..hi])
    ensures AllSpace(s[lo'..hi'])
  {
    forall x | 0 <= x < hi' - lo'
      ensures IsSpace(s[lo'..hi'][x])
    {
      assert s[lo'..hi'][x] == s[lo..hi][x + lo' - lo];
    }
  }

  /** The end of the run of non-space characters that starts at `i`. */
  function TokenEnd(s: string, i: nat): (k: nat)
    requires i <= |s|
    ensures i <= k <= |s|
    ensures NoSpace(s[i..k])
    ensures k < |s| ==> IsSpace(s[k])
    decreases |s| - i
  {
    if i == |s| || IsSpace(s[i]) then i else TokenEnd(s, i + 1)
  }

  /** The end of the run of white space that starts at `i`. */
  function SpaceEnd(s: string, i: nat): (k: nat)
    requires i <= |s|
    ensures i <= k <= |s|
    ensures AllSpace(s[i..k])
    ensures k < |s| ==> !IsSpace(s[k])
    decreases |s| - i
  {
    if i == |s| || !IsSpace(s[i]) then i else SpaceEnd(s, i + 1)
  }

  /** Where `s[lo..hi]` ends once its trailing white space is dropped. */
  function TrimmedEnd(s: string, lo: nat, hi: nat): (e: nat)
    requires lo <= hi <= |s|
    ensures lo <= e <= hi
    ensures forall m :: e <= m < hi ==> IsSpace(s[m])
    ensures e > lo ==> !IsSpace(s[e - 1])
    decreases hi
  {
    if hi > lo && IsSpace(s[hi - 1]) then TrimmedEnd(s, lo, hi - 1) else hi
  }

  /** `s.trim()`: `s` is leading white space, then the result, then trailing
      white space, and the result neither starts nor ends with white space. */
  function Trim(s: string): (r: string)
    ensures AllSpace(s[..SpaceEnd(s, 0)])
    ensures r <= s[SpaceEnd(s, 0)..]
    ensures AllSpace(s[SpaceEnd(s, 0) + |r|..])
    ensures r != [] ==> !IsSpace(r[0]) && !IsSpace(r[|r| - 1])
    ensures r == [] <==> AllSpace(s)
  {
    var lo := SpaceEnd(s, 0);
    var hi := TrimmedEnd(s, lo, |s|);
    assert s[0..lo] == s[..lo];
    assert AllSpace(s[hi..]) by {
      forall x | 0 <= x < |s| - hi
        ensures IsSpace(s[hi..][x])
      {
        assert s[hi..][x] == s[hi + x];
      }
    }
    assert lo < |s| ==> hi > lo && !IsSpace(s[lo]);
    assert lo == |s| ==> s[..lo] == s;
    s[lo..hi]
  }

  /** `s.split(sep)` for a one-character separator. */
  function Split(s: string, sep: char): (parts: seq<string>)
    ensures |parts| >= 1
    ensures forall p :: p in parts ==> sep !in p
    decreases |s|
  {
    if sep in s then
      var i := IndexOf(s, sep);
      [s[..i]] + Split(s[i + 1..], sep)
    else
      [s]
  }

  /** `parts.join(sep)`. */
  function Join(parts: seq<string>, sep: string): string {
    if parts == [] then ""
    else if |parts| == 1 then parts[0]
    else parts[0] + sep + Join(parts[1..], sep)
  }

  /** Splitting loses nothing: joining the parts back restores the text. */
  lemma {:induction false} JoinSplit(s: string, sep: char)
    ensures Join(Split(s, sep), [sep]) == s
    decreases |s|
  {
    if sep in s {
      var i := IndexOf(s, sep);
      var head, tail := s[..i], s[i + 1..];
      var rest := Split(tail, sep);
      JoinCons(head, rest, [sep]);
      JoinSplit(tail, sep);
      calc {
        Join(Split(s, sep), [sep]);
        Join([head] + rest, [sep]);
        head + [sep] + Join(rest, [sep]);
        { Around(s, i); }
        s;
      }
    }
  }

  lemma JoinCons(x: string, rest: seq<string>, sep: string)
    requires |rest| >= 1
    ensures Join([x] + rest, sep) == x + sep + Join(rest, sep)
  {
    assert ([x] + rest)[1..] == rest;
  }

  /** The first separator decides the first part. */
  lemma SplitAtFirst(s: string, sep: char, i: nat)
    requires i < |s| && s[i] == sep && sep !in s[..i]
    ensures Split(s, sep) == [s[..i]] + Split(s[i + 1..], sep)
  {
    IndexOfIsFirst(s, sep, i);
  }

  /** Joining parts that do not contain the separator can be undone by splitting. */
  lemma {:induction false} SplitJoin(parts: seq<string>, sep: char)
    requires |parts| >= 1
    requires forall p :: p in parts ==> sep !in p
    ensures Split(Join(parts, [sep]), sep) == parts
  {
    if |parts| > 1 {
      var rest := Join(parts[1..], [sep]);
      var s := parts[0] + [sep] + rest;
      assert parts[0] in parts;
      assert s[..|parts[0]|] == parts[0];
      assert s[|parts[0]| + 1..] == rest;
      SplitAtFirst(s, sep, |parts[0]|);
      SplitJoin(parts[1..], sep);
    }
  }

  /** The first part is the text before the first separator, or all of it. */
  lemma SplitFirst(s: string, sep: char)
    ensures Split(s, sep)[0] <= s
    ensures |Split(s, sep)[0]| == |s| || s[|Split(s, sep)[0]|] == sep
  {
  }

  /** Splitting at a separator splits each side independently. */
  lemma {:induction false} SplitAppend(a: string, b: string, sep: char)
    ensures Split(a + [sep] + b, sep) == Split(a, sep) + Split(b, sep)
    decreases |a|
  {
    var s := a + [sep] + b;
    if sep in a {
      var i := IndexOf(a, sep);
      SlicesInLeft(a, sep, b, i);
      SplitAtFirst(s, sep, i);
      SplitAppend(a[i + 1..], b, sep);
      SplitAtFirst(a, sep, i);
    } else {
      SlicesAtMiddle(a, sep, b);
      SplitAtFirst(s, sep, |a|);
    }
  }

  /** The parts of blank text are blank. */
  lemma {:induction false} SplitOfBlank(s: string, sep: char)
    requires AllSpace(s)
    ensures forall p :: p in Split(s, sep) ==> AllSpace(p)
    decreases |s|
  {
    if sep in s {
      var i := IndexOf(s, sep);
      SplitOfBlank(s[i + 1..], sep);
    }
  }

  /** `s.split(/\s+/)`: the pieces between maximal runs of white space; a
      leading or trailing run yields an empty first or last piece. */
  function SplitWs(s: string): (parts: seq<string>)
    ensures |parts| >= 1
    ensures forall p :: p in parts ==> NoSpace(p)
    ensures parts[0] == s[..TokenEnd(s, 0)]
    ensures |parts| >= 2 <==> !NoSpace(s)
    decreases |s|
  {
    var i := TokenEnd(s, 0);
    if i == |s| then
      assert s[0..|s|] == s;
      [s]
    else
      [s[..i]] + SplitWs(s[SpaceEnd(s, i)..])
  }

  /** The characters of `s` other than white space, in order. */
  function RemoveSpaces(s: string): (r: string)
    ensures NoSpace(r)
  {
    if s == [] then []
    else (if IsSpace(s[0]) then [] else [s[0]]) + RemoveSpaces(s[1..])
  }

  function Concat(parts: seq<string>): string {
    if parts == [] then [] else parts[0] + Concat(parts[1..])
  }

  lemma {:induction false} RemoveSpacesAppend(a: string, b: string)
    ensures RemoveSpaces(a + b) == RemoveSpaces(a) + RemoveSpaces(b)
  {
    if a != [] {
      var head := if IsSpace(a[0]) then [] else [a[0]];
      assert (a + b)[0] == a[0];
      assert (a + b)[1..] == a[1..] + b;
      RemoveSpacesAppend(a[1..], b);
      calc {
        RemoveSpaces(a + b);
        head + RemoveSpaces(a[1..] + b);
        head + (RemoveSpaces(a[1..]) + RemoveSpaces(b));
        (head + RemoveSpaces(a[1..])) + RemoveSpaces(b);
      }
    } else {
      assert a + b == b;
    }
  }

  lemma {:induction false} RemoveSpacesOfToken(s: string)
    requires NoSpace(s)
    ensures RemoveSpaces(s) == s
  {
    if s != [] {
      RemoveSpacesOfToken(s[1..]);
    }
  }

  lemma {:induction false} RemoveSpacesOfBlank(s: string)
    requires AllSpace(s)
    ensures RemoveSpaces(s) == []
  {
    if s != [] {
      RemoveSpacesOfBlank(s[1..]);
    }
  }

  /** Splitting on white space drops exactly the white space. */
  lemma {:induction false} SplitWsKeepsText(s: string)
    ensures Concat(SplitWs(s)) == RemoveSpaces(s)
    decreases |s|
  {
    var i := TokenEnd(s, 0);
    if i == |s| {
      assert s[..i] == s;
      RemoveSpacesOfToken(s);
    } else {
      var j := SpaceEnd(s, i);
      assert s == s[..i] + s[i..j] + s[j..];
      RemoveSpacesAppend(s[..i] + s[i..j], s[j..]);
      RemoveSpacesAppend(s[..i], s[i..j]);
      RemoveSpacesOfToken(s[..i]);
      RemoveSpacesOfBlank(s[i..j]);
      SplitWsKeepsText(s[j..]);
      assert SplitWs(s)[1..] == SplitWs(s[j..]);
    }
  }

  /** Joining space-free tokens with single spaces keeps exactly their text. */
  lemma {:induction false} JoinKeepsText(parts: seq<string>)
    requires forall p :: p in parts ==> NoSpace(p)
    ensures RemoveSpaces(Join(parts, " ")) == Concat(parts)
  {
    if |parts| == 1 {
      RemoveSpacesOfToken(parts[0]);
      assert Concat(parts[1..]) == [];
    } else if |parts| > 1 {
      JoinKeepsText(parts[1..]);
      RemoveSpacesAppend(parts[0] + " ", Join(parts[1..], " "));
      RemoveSpacesAppend(parts[0], " ");
      RemoveSpacesOfToken(parts[0]);
      RemoveSpacesOfBlank(" ");
    }
  }

  /** The token from `j + m` ends where the token from `m` in `s[j..]` does,
      shifted by `j`. */
  lemma {:induction false} TokenEndShift(s: string, j: nat, m: nat)
    requires j + m <= |s|
    ensures TokenEnd(s[j..], m) == TokenEnd(s, j + m) - j
    decreases |s| - m
  {
    if j + m < |s| && !IsSpace(s[j + m]) {
      TokenEndShift(s, j, m + 1);
    }
  }

  /** The second piece of `s.split(/\s+/)` is the token that follows the
      first run of white space: with the first token ending at `i` and the
      white space after it at `j`, it is `s[j..TokenEnd(s, j)]`. */
  lemma SplitWsSecond(s: string, i: nat, j: nat)
    requires i == TokenEnd(s, 0) && i < |s| && j == SpaceEnd(s, i)
    ensures SplitWs(s)[1] == s[j..TokenEnd(s, j)]
  {
    SplitWsRest(s, i, j);
    TokenEndShift(s, j, 0);
    SliceOfDrop(s, j, TokenEnd(s, j) - j);
  }

  lemma SplitWsRest(s: string, i: nat, j: nat)
    requires i == TokenEnd(s, 0) && i < |s| && j == SpaceEnd(s, i)
    ensures SplitWs(s)[1] == SplitWs(s[j..])[0]
  {
  }

  lemma SliceOfDrop<T>(s: seq<T>, j: nat, k: nat)
    requires j + k <= |s|
    ensures s[j..][..k] == s[j..j + k]
  {
  }

  /** `s.includes(t)`. */
  predicate Contains(s: string, t: string)
    decreases |s|
  {
    t <= s || (s != [] && Contains(s[1..], t))
  }

  /** `includes` holds exactly when `t` occurs at some position of `s`. */
  lemma {:induction false} ContainsIff(s: string, t: string)
    ensures Contains(s, t) <==> exists i :: 0 <= i <= |s| && t <= s[i..]
    decreases |s|
  {
    if s != [] {
      ContainsIff(s[1..], t);
      if exists i :: 0 <= i <= |s| && t <= s[i..] {
        var i :| 0 <= i <= |s| && t <= s[i..];
        if i > 0 {
          assert s[1..][i - 1..] == s[i..];
        }
      }
      if exists i :: 0 <= i <= |s[1..]| && t <= s[1..][i..] {
        var i :| 0 <= i <= |s[1..]| && t <= s[1..][i..];
        assert s[1..][i..] == s[i + 1..];
      }
    } else {
      assert t <= s[0..] <==> t <= s;
    }
  }

  /** `s.toLowerCase()` on ASCII letters; every other character is kept. */
  function LowerChar(c: char): char {
    if 'A' <= c <= 'Z' then (c as int + 32) as char else c
  }

  function Lower(s: string): (r: string)
    ensures |r| == |s|
  {
    seq(|s|, i requires 0 <= i < |s| => LowerChar(s[i]))
  }

  /** The decimal digits of `n`, as a template string prints a number. */
  function NatToString(n: nat): (r: string)
    ensures r != []
    ensures forall i :: 0 <= i < |r| ==> IsDigit(r[i])
  {
    if n < 10 then [('0' as int + n) as char]
    else NatToString(n / 10) + [('0' as int + n % 10) as char]
  }

  /** The number a string of decimal digits denotes. */
  function DecimalValue(ds: string): nat
    requires forall i :: 0 <= i < |ds| ==> IsDigit(ds[i])
  {
    if ds == [] then 0
    else
      assert IsDigit(ds[|ds| - 1]);
      10 * DecimalValue(ds[..|ds| - 1]) + (ds[|ds| - 1] as int - '0' as int)
  }

  /** Printing a count in decimal can be read back. */
  lemma {:induction false} DecimalRoundTrip(n: nat)
    ensures DecimalValue(NatToString(n)) == n
  {
    if n >= 10 {
      DecimalRoundTrip(n / 10);
      var r := NatToString(n);
      assert r[..|r| - 1] == NatToString(n / 10);
    }
  }

  /** The end of the run of decimal digits that starts at `i`. */
  function DigitsEnd(s: string, i: nat): (k: nat)
    requires i <= |s|
    ensures i <= k <= |s|
    ensures forall m :: i <= m < k ==> IsDigit(s[m])
    ensures k < |s| ==> !IsDigit(s[k])
    decreases |s| - i
  {
    if i == |s| || !IsDigit(s[i]) then i else DigitsEnd(s, i + 1)
  }
}
