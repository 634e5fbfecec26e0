/** ASCII text primitives that the matcher's Python code takes from `str` and `re`:
    lower/upper case mapping, the substring test `p in s`, `str.count`, `str.strip`,
    `str.split()`, `re.split` over a one-character class, `str.join`, and the
    code-point ordering that `sorted` uses on strings.

    Characters outside ASCII have no case mapping here and are never whitespace. */
module Strings {

  // ---------------------------------------------------------------------------
  // Character classes
  // ---------------------------------------------------------------------------

  predicate IsUpper(c: char) { 'A' <= c <= 'Z' }

  predicate IsLowerLetter(c: char) { 'a' <= c <= 'z' }

  predicate IsDigit(c: char) { '0' <= c <= '9' }

  /** Python's ASCII whitespace: what `str.isspace`, `str.split()`, `str.strip()` and the
      regex class `\s` agree on (tab through carriage return, the four separators
      0x1c-0x1f, and space). */
  const Whitespace: set<char> :=
    {' ', '\t', '\n', '\U{0b}', '\U{0c}', '\r', '\U{1c}', '\U{1d}', '\U{1e}', '\U{1f}'}

  predicate IsSpace(c: char) {
    c in Whitespace
  }

  /** The regex class `\w` restricted to ASCII. */
  predicate IsWordChar(c: char) {
    IsUpper(c) || IsLowerLetter(c) || IsDigit(c) || c == '_'
  }

  function LowerChar(c: char): char {
    if IsUpper(c) then (c as int + 32) as char else c
  }

  function UpperChar(c: char): char {
    if IsLowerLetter(c) then (c as int - 32) as char else c
  }

  /** `str.lower()` */
  function Lower(s: string): (r: string)
    ensures |r| == |s|
  {
    seq(|s|, i requires 0 <= i < |s| => LowerChar(s[i]))
  }

  /** `str.upper()` */
  function Upper(s: string): (r: string)
    ensures |r| == |s|
  {
    seq(|s|, i requires 0 <= i < |s| => UpperChar(s[i]))
  }

  predicate IsLowerText(s: string) {
    forall i :: 0 <= i < |s| ==> !IsUpper(s[i])
  }

  lemma LowerIsLower(s: string)
    ensures IsLowerText(Lower(s))
    ensures Lower(Lower(s)) == Lower(s)
  {
  }

  lemma LowerOfLowerText(s: string)
    requires IsLowerText(s)
    ensures Lower(s) == s
  {
  }

  lemma LowerAppend(a: string, b: string)
    ensures Lower(a + b) == Lower(a) + Lower(b)
  {
  }

  /** Upper-casing first loses nothing that lower-casing keeps. */
  lemma LowerUpper(s: string)
    ensures Lower(Upper(s)) == Lower(s)
  {
  }

  // ---------------------------------------------------------------------------
  // Substring test `p in s`
  // ---------------------------------------------------------------------------

  predicate IsPrefix(p: string, s: string) {
    |p| <= |s| && s[..|p|] == p
  }

  /** `p in s`, scanning the start positions of `s` left to right. */
  predicate Occurs(p: string, s: string)
    decreases |s|
  {
    IsPrefix(p, s) || (|s| > 0 && Occurs(p, s[1..]))
  }

  /** `p` sits at position `i` of `s`. */
  ghost predicate OccursAt(p: string, s: string, i: int) {
    0 <= i && i + |p| <= |s| && s[i..i + |p|] == p
  }

  lemma {:induction false} OccursAtShift(p: string, s: string, i: int)
    requires |s| > 0 && 0 <= i
    ensures OccursAt(p, s[1..], i) <==> OccursAt(p, s, i + 1)
  {
    if 0 <= i && i + |p| <= |s| - 1 {
      assert s[1..][i..i + |p|] == s[i + 1..i + 1 + |p|];
    }
  }

  /** The scan finds `p` exactly when `p` sits at some position of `s`. */
  lemma {:induction false} OccursIff(p: string, s: string)
    ensures Occurs(p, s) <==> exists i :: OccursAt(p, s, i)
    decreases |s|
  {
    if IsPrefix(p, s) {
      assert OccursAt(p, s, 0);
    } else if |s| == 0 {
    } else {
      OccursIff(p, s[1..]);
      if Occurs(p, s[1..]) {
        var i :| OccursAt(p, s[1..], i);
        OccursAtShift(p, s, i);
      } else {
        forall i | OccursAt(p, s, i) ensures false {
          assert i != 0;
          OccursAtShift(p, s, i - 1);
        }
      }
    }
  }

  /** `any(p in s for p in ps)` */
  predicate OccursAny(ps: seq<string>, s: string) {
    exists k | 0 <= k < |ps| :: Occurs(ps[k], s)
  }

  lemma OccursAtWitness(p: string, s: string, i: int)
    requires OccursAt(p, s, i)
    ensures Occurs(p, s)
  {
    OccursIff(p, s);
  }

  /** A string that contains `p` still does after text is added on either side. */
  lemma OccursInConcat(p: string, a: string, t: string, b: string)
    requires Occurs(p, t)
    ensures Occurs(p, a + t + b)
  {
    OccursIff(p, t);
    var i :| OccursAt(p, t, i);
    assert (a + t + b)[|a| + i..|a| + i + |p|] == t[i..i + |p|];
    OccursAtWitness(p, a + t + b, |a| + i);
  }

  /** A cheap sufficient test for `p` not being in `s`: `p` is longer than `s`, or its
      first character appears nowhere it could start a match. */
  predicate CannotOccur(p: string, s: string) {
    |p| > |s| || (|p| > 0 && p[0] !in s[..|s| - |p| + 1])
  }

  lemma CannotOccurSound(p: string, s: string)
    requires CannotOccur(p, s)
    ensures !Occurs(p, s)
  {
    OccursIff(p, s);
    if |p| <= |s| {
      forall i | 0 <= i <= |s| - |p| ensures !OccursAt(p, s, i) {
        assert s[..|s| - |p| + 1][i] == s[i];
        assert s[i..i + |p|][0] == s[i];
      }
    }
  }

  lemma OccursSelf(s: string)
    ensures Occurs(s, s)
  {
    assert IsPrefix(s, s);
  }

  // ---------------------------------------------------------------------------
  // `str.count`: non-overlapping occurrences, left to right
  // ---------------------------------------------------------------------------

  /** `s.count(p)`. The empty pattern occurs at each of the |s| + 1 positions. */
  function Count(p: string, s: string): nat
    decreases |s|
  {
    if |p| == 0 then |s| + 1
    else if IsPrefix(p, s) then 1 + Count(p, s[|p|..])
    else if |s| == 0 then 0
    else Count(p, s[1..])
  }

  /** A non-empty pattern is counted at least once exactly when it is a substring. */
  lemma {:induction false} CountPositiveIff(p: string, s: string)
    requires |p| > 0
    ensures Count(p, s) > 0 <==> Occurs(p, s)
    decreases |s|
  {
    if IsPrefix(p, s) {
    } else if |s| == 0 {
    } else {
      CountPositiveIff(p, s[1..]);
    }
  }

  /** Counted occurrences never overlap, so together they fit inside `s`. */
  lemma {:induction false} CountFits(p: string, s: string)
    requires |p| > 0
    ensures Count(p, s) * |p| <= |s|
    decreases |s|
  {
    if IsPrefix(p, s) {
      CountFits(p, s[|p|..]);
    } else if |s| == 0 {
    } else {
      CountFits(p, s[1..]);
    }
  }

  // ---------------------------------------------------------------------------
  // `str.strip()`
  // ---------------------------------------------------------------------------

  predicate AllSpace(s: string) {
    forall k :: 0 <= k < |s| ==> IsSpace(s[k])
  }

  /** Neither end of `s` is whitespace. */
  predicate IsStripped(s: string) {
    |s| == 0 || (!IsSpace(s[0]) && !IsSpace(s[|s| - 1]))
  }

  /** `s.lstrip()`: a suffix of `s`, everything dropped is whitespace. */
  function StripLeft(s: string): (r: string)
    ensures |r| <= |s| && r == s[|s| - |r|..]
    ensures AllSpace(s[..|s| - |r|])
    ensures |r| > 0 ==> !IsSpace(r[0])
    decreases |s|
  {
    if |s| > 0 && IsSpace(s[0]) then
      var r := StripLeft(s[1..]);
      assert s[..|s| - |r|] == [s[0]] + s[1..][..|s| - 1 - |r|];
      r
    else s
  }

  /** `s.rstrip()`: a prefix of `s`, everything dropped is whitespace. */
  function StripRight(s: string): (r: string)
    ensures |r| <= |s| && r == s[..|r|]
    ensures AllSpace(s[|r|..])
    ensures |r| > 0 ==> !IsSpace(r[|r| - 1])
    decreases |s|
  {
    if |s| > 0 && IsSpace(s[|s| - 1]) then
      var r := StripRight(s[..|s| - 1]);
      assert s[|r|..] == s[..|s| - 1][|r|..] + [s[|s| - 1]];
      r
    else s
  }

  /** Where `Strip(s)` starts inside `s`. */
  function StripStart(s: string): nat {
    |s| - |StripLeft(s)|
  }

  /** `s.strip()` */
  function Strip(s: string): (r: string)
    ensures StripStart(s) + |r| <= |s|
    ensures r == s[StripStart(s)..StripStart(s) + |r|]
  {
    var l := StripLeft(s);
    var r := StripRight(l);
    assert r == s[|s| - |l|..][..|r|];
    r
  }

  /** `Strip(s)` is the part of `s` between a whitespace-only prefix and a
      whitespace-only suffix, and neither of its ends is whitespace. */
  lemma StripSpec(s: string)
    ensures IsStripped(Strip(s))
    ensures AllSpace(s[..StripStart(s)])
    ensures AllSpace(s[StripStart(s) + |Strip(s)|..])
  {
    var l := StripLeft(s);
    var r := StripRight(l);
    if |r| > 0 {
      assert r[0] == l[0];
    }
    assert s[StripStart(s) + |r|..] == l[|r|..];
  }

  /** Stripping what has no whitespace at either end changes nothing. */
  lemma StripOfStripped(s: string)
    requires IsStripped(s)
    ensures Strip(s) == s
  {
  }

  lemma StripIdempotent(s: string)
    ensures Strip(Strip(s)) == Strip(s)
  {
    StripSpec(s);
    StripOfStripped(Strip(s));
  }

  /** Every character of `Strip(s)` comes from `s`. */
  lemma StripChars(s: string)
    ensures forall c :: c in Strip(s) ==> c in s
  {
    var r := Strip(s);
    var a := StripStart(s);
    assert a + |r| <= |s| && r == s[a..a + |r|];
    forall k | 0 <= k < |r| ensures r[k] in s {
      assert r[k] == s[a + k];
    }
  }

  /** The stripped text is empty exactly when `s` is all whitespace. */
  lemma StripEmptyIff(s: string)
    ensures |Strip(s)| == 0 <==> AllSpace(s)
  {
    StripSpec(s);
    var a := StripStart(s);
    if |Strip(s)| == 0 {
      assert |StripLeft(s)| == 0;
      assert s[..a] == s;
    } else {
      assert s[a] == Strip(s)[0];
    }
  }

  // ---------------------------------------------------------------------------
  // `str.split()` with no separator
  // ---------------------------------------------------------------------------

  predicate NoSpace(s: string) {
    forall k :: 0 <= k < |s| ==> !IsSpace(s[k])
  }

  /** A token of `str.split()`: non-empty, without whitespace. */
  predicate IsWord(w: string) {
    |w| > 0 && NoSpace(w)
  }

  /** The longest prefix of `s` without whitespace. */
  function TakeWord(s: string): (w: string)
    ensures |w| <= |s| && w == s[..|w|]
    ensures |w| < |s| ==> IsSpace(s[|w|])
    ensures NoSpace(w)
    decreases |s|
  {
    if |s| == 0 || IsSpace(s[0]) then "" else [s[0]] + TakeWord(s[1..])
  }

  /** The first word of `s` after its leading whitespace, and what follows it. */
  lemma WordStep(s: string)
    requires |StripLeft(s)| > 0
    ensures IsWord(TakeWord(StripLeft(s)))
    ensures |StripLeft(s)| - |TakeWord(StripLeft(s))| < |s|
  {
    var t := StripLeft(s);
    assert !IsSpace(t[0]);
  }

  /** `s.split()`: the maximal runs of non-whitespace characters, in order. */
  function Words(s: string): seq<string>
    decreases |s|
  {
    var t := StripLeft(s);
    if |t| == 0 then []
    else
      var w := TakeWord(t);
      WordStep(s);
      [w] + Words(t[|w|..])
  }

  /** Every token of `str.split()` is a non-empty run without whitespace. */
  lemma {:induction false} WordsAreWords(s: string)
    ensures forall k :: 0 <= k < |Words(s)| ==> IsWord(Words(s)[k])
    decreases |s|
  {
    var t := StripLeft(s);
    if |t| > 0 {
      var w := TakeWord(t);
      WordStep(s);
      var rest := Words(t[|w|..]);
      WordsAreWords(t[|w|..]);
      assert Words(s) == [w] + rest;
      forall k | 0 <= k < |Words(s)| ensures IsWord(Words(s)[k]) {
        if k > 0 {
          assert Words(s)[k] == rest[k - 1];
        }
      }
    }
  }

  /** The concatenation of a sequence of strings. */
  function Concat(xs: seq<string>): string {
    if |xs| == 0 then "" else xs[0] + Concat(xs[1..])
  }

  /** `s` without the characters of `d`. */
  function RemoveChars(s: string, d: set<char>): string
    decreases |s|
  {
    if |s| == 0 then ""
    else if s[0] in d then RemoveChars(s[1..], d)
    else [s[0]] + RemoveChars(s[1..], d)
  }

  /** `s` with every whitespace character removed. */
  function RemoveSpaces(s: string): string {
    RemoveChars(s, Whitespace)
  }

  /** How many characters of `s` belong to `d`. */
  function CountChars(s: string, d: set<char>): nat
    decreases |s|
  {
    if |s| == 0 then 0
    else (if s[0] in d then 1 else 0) + CountChars(s[1..], d)
  }

  lemma {:induction false} RemoveCharsAppend(a: string, b: string, d: set<char>)
    ensures RemoveChars(a + b, d) == RemoveChars(a, d) + RemoveChars(b, d)
    decreases |a|
  {
    if |a| > 0 {
      assert (a + b)[1..] == a[1..] + b;
      RemoveCharsAppend(a[1..], b, d);
    } else {
      assert a + b == b;
    }
  }

  lemma {:induction false} ConcatAppend(xs: seq<string>, ys: seq<string>)
    ensures Concat(xs + ys) == Concat(xs) + Concat(ys)
    decreases |xs|
  {
    if |xs| > 0 {
      assert (xs + ys)[1..] == xs[1..] + ys;
      ConcatAppend(xs[1..], ys);
    } else {
      assert xs + ys == ys;
    }
  }

  /** Whitespace is exactly what `str.split()` throws away: gluing the words back
      together gives `s` without its whitespace. */
  lemma {:induction false} WordsConcat(s: string)
    ensures Concat(Words(s)) == RemoveSpaces(s)
    decreases |s|
  {
    var t := StripLeft(s);
    var lead := s[..|s| - |t|];
    assert s == lead + t;
    RemoveCharsAppend(lead, t, Whitespace);
    AllSpaceRemoved(lead);
    if |t| > 0 {
      var w := TakeWord(t);
      assert |w| > 0 by { assert !IsSpace(t[0]); }
      var rest := t[|w|..];
      WordsUnfold(s);
      ConcatCons(w, Words(rest));
      WordsConcat(rest);
      RemoveCharsSplit(t, |w|, Whitespace);
      NoSpaceKept(w);
    }
  }

  lemma RemoveCharsSplit(s: string, k: nat, d: set<char>)
    requires k <= |s|
    ensures RemoveChars(s, d) == RemoveChars(s[..k], d) + RemoveChars(s[k..], d)
  {
    assert s == s[..k] + s[k..];
    RemoveCharsAppend(s[..k], s[k..], d);
  }

  lemma WordsUnfold(s: string)
    requires |StripLeft(s)| > 0
    ensures Words(s) == [TakeWord(StripLeft(s))] + Words(StripLeft(s)[|TakeWord(StripLeft(s))|..])
  {
  }

  lemma ConcatCons(x: string, xs: seq<string>)
    ensures Concat([x] + xs) == x + Concat(xs)
  {
    assert ([x] + xs)[1..] == xs;
  }

  lemma {:induction false} AllSpaceRemoved(s: string)
    requires AllSpace(s)
    ensures RemoveSpaces(s) == ""
    decreases |s|
  {
    if |s| > 0 {
      AllSpaceRemoved(s[1..]);
    }
  }

  lemma {:induction false} NoSpaceKept(s: string)
    requires NoSpace(s)
    ensures RemoveSpaces(s) == s
    decreases |s|
  {
    if |s| > 0 {
      NoSpaceKept(s[1..]);
    }
  }

  // ---------------------------------------------------------------------------
  // `re.split` over a character class, and `str.join`
  // ---------------------------------------------------------------------------

  /** `re.split("[...]", s)` where the class is `d`: the fragments between
      delimiter characters, empty ones included, so there is always at least one. */
  function SplitOn(s: string, d: set<char>): (parts: seq<string>)
    ensures |parts| >= 1
    decreases |s|
  {
    if |s| == 0 then [""]
    else
      var rest := SplitOn(s[1..], d);
      if s[0] in d then [""] + rest
      else [[s[0]] + rest[0]] + rest[1..]
  }

  /** `x` contains no character of `d`. */
  predicate Avoids(x: string, d: set<char>) {
    forall k :: 0 <= k < |x| ==> x[k] !in d
  }

  /** The fragments hold no delimiter, there is one more fragment than there are
      delimiters, and together they are `s` with the delimiters taken out. */
  lemma {:induction false} SplitOnSpec(s: string, d: set<char>)
    ensures forall k :: 0 <= k < |SplitOn(s, d)| ==> Avoids(SplitOn(s, d)[k], d)
    ensures |SplitOn(s, d)| == CountChars(s, d) + 1
    ensures Concat(SplitOn(s, d)) == RemoveChars(s, d)
    decreases |s|
  {
    if |s| > 0 {
      var rest := SplitOn(s[1..], d);
      SplitOnSpec(s[1..], d);
      if s[0] in d {
        assert Concat([""] + rest) == Concat(rest);
      } else {
        var parts := SplitOn(s, d);
        assert parts[1..] == rest[1..];
        assert Concat(rest) == rest[0] + Concat(rest[1..]);
      }
    }
  }

  /** `sep.join(xs)` */
  function Join(xs: seq<string>, sep: string): string {
    if |xs| == 0 then ""
    else if |xs| == 1 then xs[0]
    else xs[0] + sep + Join(xs[1..], sep)
  }

  /** A join holds every piece and one separator between neighbours. */
  lemma {:induction false} JoinLength(xs: seq<string>, sep: string)
    ensures |xs| > 0 ==> |Join(xs, sep)| == |Concat(xs)| + |sep| * (|xs| - 1)
    ensures |xs| == 0 ==> Join(xs, sep) == ""
    decreases |xs|
  {
    if |xs| == 1 {
      assert Concat(xs) == xs[0] + Concat(xs[1..]);
    } else if |xs| > 1 {
      JoinLength(xs[1..], sep);
    }
  }

  /** Every piece of a join is a substring of it. */
  lemma {:induction false} JoinContains(xs: seq<string>, sep: string, k: int)
    requires 0 <= k < |xs|
    ensures Occurs(xs[k], Join(xs, sep))
    decreases |xs|
  {
    if |xs| == 1 {
      OccursSelf(xs[0]);
    } else if k == 0 {
      OccursSelf(xs[0]);
      OccursInConcat(xs[0], "", xs[0], sep + Join(xs[1..], sep));
      assert "" + xs[0] + (sep + Join(xs[1..], sep)) == Join(xs, sep);
    } else {
      JoinContains(xs[1..], sep, k - 1);
      OccursInConcat(xs[k], xs[0] + sep, Join(xs[1..], sep), "");
      assert xs[0] + sep + Join(xs[1..], sep) + "" == Join(xs, sep);
    }
  }

  /** Joining the fragments of a split with the one delimiter gives the text back. */
  lemma {:induction false} JoinSplitOn(s: string, c: char)
    ensures Join(SplitOn(s, {c}), [c]) == s
    decreases |s|
  {
    if |s| > 0 {
      var rest := SplitOn(s[1..], {c});
      JoinSplitOn(s[1..], c);
      if s[0] != c {
        var parts := SplitOn(s, {c});
        assert parts[1..] == rest[1..];
        if |rest| == 1 {
          assert Join(parts, [c]) == [s[0]] + rest[0];
        } else {
          assert Join(rest, [c]) == rest[0] + [c] + Join(rest[1..], [c]);
          assert Join(parts, [c]) == ([s[0]] + rest[0]) + [c] + Join(rest[1..], [c]);
        }
      }
    }
  }

  /** Splitting a delimiter-free `a` followed by `t` only extends the first fragment. */
  lemma {:induction false} SplitOnFreePrefix(a: string, t: string, d: set<char>)
    requires Avoids(a, d)
    ensures SplitOn(a + t, d) == [a + SplitOn(t, d)[0]] + SplitOn(t, d)[1..]
    decreases |a|
  {
    if |a| > 0 {
      assert (a + t)[1..] == a[1..] + t;
      SplitOnFreePrefix(a[1..], t, d);
      assert [a[0]] + (a[1..] + SplitOn(t, d)[0]) == a + SplitOn(t, d)[0];
    } else {
      var parts := SplitOn(t, d);
      assert a + t == t && a + parts[0] == parts[0];
      assert parts == [parts[0]] + parts[1..];
    }
  }

  /** Splitting on `c` undoes joining with `c`, as long as no piece contains `c`. */
  lemma {:induction false} SplitOnJoin(xs: seq<string>, c: char)
    requires |xs| >= 1
    requires forall k :: 0 <= k < |xs| ==> Avoids(xs[k], {c})
    ensures SplitOn(Join(xs, [c]), {c}) == xs
    decreases |xs|
  {
    if |xs| == 1 {
      SplitOnFreePrefix(xs[0], "", {c});
      assert SplitOn("", {c}) == [""];
      assert xs[0] + "" == xs[0];
    } else {
      var tail := Join(xs[1..], [c]);
      SplitOnJoin(xs[1..], c);
      assert Join(xs, [c]) == xs[0] + ([c] + tail);
      SplitOnFreePrefix(xs[0], [c] + tail, {c});
      assert ([c] + tail)[1..] == tail;
      assert SplitOn([c] + tail, {c}) == [""] + xs[1..];
      assert xs[0] + "" == xs[0];
      assert xs == [xs[0]] + xs[1..];
    }
  }

  // ---------------------------------------------------------------------------
  // Code-point ordering of strings, as Python's `<` on `str`
  // ---------------------------------------------------------------------------

  /** `a < b`: the first differing character decides, and a proper prefix comes first. */
  predicate Less(a: string, b: string)
    decreases |a|
  {
    if |a| == 0 then |b| > 0
    else if |b| == 0 then false
    else a[0] < b[0] || (a[0] == b[0] && Less(a[1..], b[1..]))
  }

  lemma {:induction false} LessIrreflexive(a: string)
    ensures !Less(a, a)
    decreases |a|
  {
    if |a| > 0 {
      LessIrreflexive(a[1..]);
    }
  }

  lemma {:induction false} LessTransitive(a: string, b: string, c: string)
    requires Less(a, b) && Less(b, c)
    ensures Less(a, c)
    decreases |a|
  {
    if |a| > 0 && a[0] == b[0] && b[0] == c[0] {
      LessTransitive(a[1..], b[1..], c[1..]);
    }
  }

  /** Two different strings are always ordered one way or the other. */
  lemma {:induction false} LessTotal(a: string, b: string)
    requires a != b
    ensures Less(a, b) || Less(b, a)
    decreases |a|
  {
    if |a| > 0 && |b| > 0 && a[0] == b[0] {
      assert a == [a[0]] + a[1..] && b == [b[0]] + b[1..];
      LessTotal(a[1..], b[1..]);
    }
  }

  lemma {:induction false} LessAsymmetric(a: string, b: string)
    requires Less(a, b)
    ensures !Less(b, a)
    decreases |a|
  {
    if |a| > 0 && |b| > 0 && a[0] == b[0] {
      LessAsymmetric(a[1..], b[1..]);
    }
  }
}
