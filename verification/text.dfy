/** The Python string operations the parser relies on: `strip`, `startswith`,
    `in`, `index`/`find`, `split(sep, 1)`, `count` and `replace`. */
module Text {
  import opened JsonValue

  /** The characters `str.strip()` and the regular-expression class `\s` treat as
      whitespace (the ASCII and Latin-1 ones). */
  predicate IsSpace(c: char)
  {
    c == ' ' || c == '\t' || c == '\n' || c == '\r' || c == '\U{000B}' || c == '\U{000C}'
    || ('\U{001C}' <= c <= '\U{001F}') || c == '\U{0085}' || c == '\U{00A0}'
  }

  predicate AllSpace(s: string)
  {
    forall i :: 0 <= i < |s| ==> IsSpace(s[i])
  }

  /** `s.lstrip()` */
  function TrimLeft(s: string): (r: string)
    ensures |r| <= |s| && r == s[|s| - |r|..]
  {
    if s != [] && IsSpace(s[0]) then TrimLeft(s[1..]) else s
  }

  /** `lstrip` removes exactly the leading whitespace: what it drops is whitespace and
      what it keeps does not start with any. */
  lemma {:induction false} TrimLeftSpec(s: string)
    ensures AllSpace(s[..|s| - |TrimLeft(s)|])
    ensures TrimLeft(s) == [] || !IsSpace(TrimLeft(s)[0])
  {
    if s != [] && IsSpace(s[0]) {
      TrimLeftSpec(s[1..]);
      var k := |s| - |TrimLeft(s)|;
      assert forall i :: 1 <= i < k ==> s[..k][i] == s[1..][..k - 1][i - 1];
    }
  }

  /** `s.rstrip()` */
  function TrimRight(s: string): (r: string)
    ensures |r| <= |s| && r == s[..|r|]
  {
    if s != [] && IsSpace(s[|s| - 1]) then TrimRight(s[..|s| - 1]) else s
  }

  /** `rstrip` removes exactly the trailing whitespace. */
  lemma {:induction false} TrimRightSpec(s: string)
    ensures AllSpace(s[|TrimRight(s)|..])
    ensures TrimRight(s) == [] || !IsSpace(TrimRight(s)[|TrimRight(s)| - 1])
  {
    if s != [] && IsSpace(s[|s| - 1]) {
      TrimRightSpec(s[..|s| - 1]);
      var k := |TrimRight(s)|;
      assert forall i :: k <= i < |s| - 1 ==> s[i] == s[..|s| - 1][i];
    }
  }

  /** `s.strip()` */
  function Strip(s: string): string
  {
    TrimRight(TrimLeft(s))
  }

  /** Stripping a text made only of whitespace leaves nothing. */
  lemma {:induction false} StripAllSpace(s: string)
    requires AllSpace(s)
    ensures Strip(s) == []
  {
    if s != [] {
      assert AllSpace(s[1..]) by {
        forall i | 0 <= i < |s[1..]| ensures IsSpace(s[1..][i]) {
          assert s[1..][i] == s[i + 1];
        }
      }
      StripAllSpace(s[1..]);
    }
  }

  predicate StartsWith(s: string, prefix: string)
  {
    |prefix| <= |s| && s[..|prefix|] == prefix
  }

  predicate OccursAt(s: string, pat: string, i: int)
  {
    0 <= i && i + |pat| <= |s| && s[i..i + |pat|] == pat
  }

  /** The first occurrence of `pat` at or after `from` (characterised by `FindFromSpec`). */
  function FindFrom(s: string, pat: string, from: nat): (r: Option<nat>)
    requires from <= |s|
    ensures r.Some? ==> from <= r.value && OccursAt(s, pat, r.value)
    decreases |s| - from
  {
    if from + |pat| > |s| then None
    else if s[from..from + |pat|] == pat then Some(from)
    else FindFrom(s, pat, from + 1)
  }

  /** `FindFrom` finds the first occurrence at or after `from`, and finds none only when
      there is none. */
  lemma {:induction false} FindFromSpec(s: string, pat: string, from: nat)
    requires from <= |s|
    ensures FindFrom(s, pat, from).Some? ==>
      forall j :: from <= j < FindFrom(s, pat, from).value ==> !OccursAt(s, pat, j)
    ensures FindFrom(s, pat, from).None? ==> forall j :: from <= j ==> !OccursAt(s, pat, j)
    decreases |s| - from
  {
    if from + |pat| <= |s| && s[from..from + |pat|] != pat {
      FindFromSpec(s, pat, from + 1);
    }
  }

  /** `s.find(pat)` / `s.index(pat)`: the index of the first occurrence, if any. */
  function Find(s: string, pat: string): (r: Option<nat>)
    ensures r.Some? ==> OccursAt(s, pat, r.value)
  {
    FindFrom(s, pat, 0)
  }

  /** `Find` returns the first occurrence, and `None` exactly when there is none. */
  lemma FindSpec(s: string, pat: string)
    ensures Find(s, pat).Some? ==> forall j :: 0 <= j < Find(s, pat).value ==> !OccursAt(s, pat, j)
    ensures Find(s, pat).None? <==> forall j :: !OccursAt(s, pat, j)
  {
    FindFromSpec(s, pat, 0);
  }

  /** `pat in s` */
  predicate Contains(s: string, pat: string)
  {
    Find(s, pat).Some?
  }

  /** `s.split(sep, 1)[1]`: the text after the first occurrence of `sep`. */
  function After(s: string, sep: string): (r: string)
    requires Contains(s, sep)
    ensures |r| + |sep| <= |s| && OccursAt(s, sep, |s| - |r| - |sep|) && r == s[|s| - |r|..]
  {
    var i := Find(s, sep).value;
    s[i + |sep|..]
  }

  /** `After` cuts at the FIRST occurrence: no occurrence of `sep` starts before the one
      it cuts after. */
  lemma AfterSpec(s: string, sep: string)
    requires Contains(s, sep)
    ensures forall j :: 0 <= j < |s| - |After(s, sep)| - |sep| ==> !OccursAt(s, sep, j)
  {
    FindSpec(s, sep);
  }

  /** `s.count(c)` for a one-character needle. */
  function Count(s: string, c: char): (n: nat)
    ensures n <= |s|
  {
    if s == [] then 0 else (if s[0] == c then 1 else 0) + Count(s[1..], c)
  }

  lemma {:induction false} CountConcat(a: string, b: string, c: char)
    ensures Count(a + b, c) == Count(a, c) + Count(b, c)
  {
    if a != [] {
      assert (a + b)[1..] == a[1..] + b;
      CountConcat(a[1..], b, c);
    } else {
      assert a + b == b;
    }
  }

  /** `s.replace(pat, rep)`: non-overlapping occurrences, left to right. */
  function Replace(s: string, pat: string, rep: string): (r: string)
    requires |pat| > 0
    decreases |s|
  {
    if |s| < |pat| then s
    else if s[..|pat|] == pat then rep + Replace(s[|pat|..], pat, rep)
    else [s[0]] + Replace(s[1..], pat, rep)
  }

  /** The first character of a replacement: the replacement text's, when the pattern
      starts the text, and the text's own otherwise. */
  lemma ReplaceHead(s: string, pat: string, rep: string)
    requires |pat| > 0 && |rep| > 0 && |s| > 0
    ensures |Replace(s, pat, rep)| > 0
    ensures Replace(s, pat, rep)[0] == if StartsWith(s, pat) then rep[0] else s[0]
  {
  }

  /** A text that does not start with the pattern's first character keeps that
      character, and the rest is replaced on its own. */
  lemma ReplaceKeepsHead(s: string, pat: string, rep: string)
    requires |pat| > 0 && |s| > 0
    ensures s[0] != pat[0] ==> Replace(s, pat, rep) == [s[0]] + Replace(s[1..], pat, rep)
  {
  }
}
