/**
 * The string operations of Python's `str` and `os.path` that the two
 * scripts use, on `string` (sequences of code points).
 */
module Text {

  /** `s.startswith(p)` */
  predicate StartsWith(s: string, p: string) {
    |p| <= |s| && s[..|p|] == p
  }

  /** `s.endswith(p)` */
  predicate EndsWith(s: string, p: string) {
    |p| <= |s| && s[|s| - |p|..] == p
  }

  /** `p in s`: `p` occurs somewhere in `s` as a contiguous piece. */
  predicate Contains(s: string, p: string)
    decreases |s|
  {
    StartsWith(s, p) || (s != [] && Contains(s[1..], p))
  }

  /** `Contains` is the substring relation: it holds exactly when `s` splits around `p`. */
  lemma ContainsIff(s: string, p: string)
    ensures Contains(s, p) <==> exists a: string, b: string :: s == a + p + b
  {
    if Contains(s, p) {
      var a, b := ContainsSplit(s, p);
    }
    if exists a: string, b: string :: s == a + p + b {
      var a: string, b: string :| s == a + p + b;
      SplitContains(s, a, p, b);
    }
  }

  /** Where `Contains` finds `p`: the text before and after it. */
  lemma {:induction false} ContainsSplit(s: string, p: string) returns (a: string, b: string)
    requires Contains(s, p)
    ensures s == a + p + b
    decreases |s|
  {
    if StartsWith(s, p) {
      a, b := [], s[|p|..];
      assert s == [] + p + s[|p|..];
    } else {
      var a', b' := ContainsSplit(s[1..], p);
      a, b := [s[0]] + a', b';
      assert s == [s[0]] + s[1..];
    }
  }

  /** `p` placed anywhere in a text is found by `Contains`. */
  lemma {:induction false} SplitContains(s: string, a: string, p: string, b: string)
    requires s == a + p + b
    ensures Contains(s, p)
    decreases |a|
  {
    if a == [] {
      assert s[..|p|] == p;
    } else {
      assert s[1..] == a[1..] + p + b;
      SplitContains(s[1..], a[1..], p, b);
    }
  }

  /**
   * `s.replace(pat, rep)`: every occurrence of `pat`, found left to right
   * without overlap, is replaced by `rep`; replaced text is never rescanned.
   */
  function Replace(s: string, pat: string, rep: string): string
    requires pat != []
    decreases |s|
  {
    if s == [] then []
    else if StartsWith(s, pat) then rep + Replace(s[|pat|..], pat, rep)
    else [s[0]] + Replace(s[1..], pat, rep)
  }

  /** `s.count(p)`: the number of occurrences `Replace` replaces. */
  function Count(s: string, p: string): nat
    requires p != []
    decreases |s|
  {
    if s == [] then 0
    else if StartsWith(s, p) then 1 + Count(s[|p|..], p)
    else Count(s[1..], p)
  }

  /** A text without `pat` in it is left as it is. */
  lemma {:induction false} ReplaceAbsent(s: string, pat: string, rep: string)
    requires pat != [] && !Contains(s, pat)
    ensures Replace(s, pat, rep) == s
    decreases |s|
  {
    if s != [] {
      ReplaceAbsent(s[1..], pat, rep);
    }
  }

  /** Removing `p` shortens the text by `|p|` per occurrence and by nothing else. */
  lemma {:induction false} RemoveLength(s: string, p: string)
    requires p != []
    ensures |Replace(s, p, [])| == |s| - |p| * Count(s, p)
    decreases |s|
  {
    if s != [] {
      if StartsWith(s, p) {
        var rest := s[|p|..];
        RemoveLength(rest, p);
        var c := Count(rest, p);
        assert Count(s, p) == 1 + c;
        assert Replace(s, p, []) == Replace(rest, p, []);
        assert |rest| == |s| - |p|;
        MulSucc(|p|, c);
      } else {
        RemoveLength(s[1..], p);
        assert Count(s, p) == Count(s[1..], p);
        assert |Replace(s, p, [])| == 1 + |Replace(s[1..], p, [])|;
      }
    }
  }

  /** One more copy of `a`. */
  lemma MulSucc(a: nat, c: nat)
    ensures a * (1 + c) == a + a * c
  {
  }

  /** Replacing one character by another one acts on every position separately. */
  lemma {:induction false} ReplaceCharAt(s: string, pat: string, rep: string)
    requires |pat| == 1 && |rep| == 1
    ensures |Replace(s, pat, rep)| == |s|
    ensures forall i :: 0 <= i < |s| ==>
      Replace(s, pat, rep)[i] == if s[i] == pat[0] then rep[0] else s[i]
    decreases |s|
  {
    if s != [] {
      ReplaceCharAt(s[1..], pat, rep);
      var r := Replace(s[1..], pat, rep);
      if s[0] == pat[0] {
        assert StartsWith(s, pat);
        assert Replace(s, pat, rep) == rep + r;
      } else {
        assert Replace(s, pat, rep) == [s[0]] + r;
      }
    }
  }

  /** After one-character replacement the replaced character no longer occurs. */
  lemma ReplaceCharGone(s: string, pat: string, rep: string)
    requires |pat| == 1 && |rep| == 1 && pat != rep
    ensures pat[0] !in Replace(s, pat, rep)
  {
    ReplaceCharAt(s, pat, rep);
  }

  /** A leading occurrence of the removed text disappears, whatever follows. */
  lemma RemoveLeading(p: string, t: string)
    requires p != []
    ensures Replace(p + t, p, []) == Replace(t, p, [])
  {
    assert (p + t)[..|p|] == p;
    assert (p + t)[|p|..] == t;
  }

  /**
   * One pass only: removing "ab" from "aabb" leaves "ab", so a removed
   * text may still occur in the result.
   */
  lemma RemoveIsSinglePass()
    ensures Replace("aabb", "ab", "") == "ab"
  {
    assert "aabb"[..2][1] != "ab"[1];
    assert "aabb"[1..] == "abb";
    assert StartsWith("abb", "ab");
    assert "abb"[2..] == "b";
    assert !StartsWith("b", "ab");
    assert "b"[1..] == "";
  }

  /** `.replace("\n", " ")` */
  function FoldNewlines(s: string): (r: string)
    ensures |r| == |s|
    ensures forall i :: 0 <= i < |s| ==> r[i] == if s[i] == '\n' then ' ' else s[i]
    ensures '\n' !in r
  {
    ReplaceCharAt(s, "\n", " ");
    ReplaceCharGone(s, "\n", " ");
    Replace(s, "\n", " ")
  }

  /** The characters `str.isspace` accepts, which `str.strip` removes. */
  predicate IsSpace(c: char) {
    c == ' ' || ('\t' <= c <= '\r') || ('\U{1c}' <= c <= '\U{1f}')
    || c == '\U{85}' || c == '\U{a0}' || c == '\U{1680}'
    || ('\U{2000}' <= c <= '\U{200a}') || c == '\U{2028}' || c == '\U{2029}'
    || c == '\U{202f}' || c == '\U{205f}' || c == '\U{3000}'
  }

  /** `s.lstrip()` */
  function StripStart(s: string): (r: string)
    ensures |r| <= |s| && r == s[|s| - |r|..]
    ensures forall i :: 0 <= i < |s| - |r| ==> IsSpace(s[i])
    ensures r == [] || !IsSpace(r[0])
    decreases |s|
  {
    if s != [] && IsSpace(s[0]) then StripStart(s[1..]) else s
  }

  /** `s.rstrip()` */
  function StripEnd(s: string): (r: string)
    ensures |r| <= |s| && r == s[..|r|]
    ensures forall i :: |r| <= i < |s| ==> IsSpace(s[i])
    ensures r == [] || !IsSpace(r[|r| - 1])
    decreases |s|
  {
    if s != [] && IsSpace(s[|s| - 1]) then StripEnd(s[..|s| - 1]) else s
  }

  /** `s.strip()` */
  function Strip(s: string): string {
    StripEnd(StripStart(s))
  }

  /** A leading white-space character is stripped. */
  lemma StripSpaceFirst(c: char, s: string)
    requires IsSpace(c)
    ensures StripStart([c] + s) == StripStart(s)
  {
    assert ([c] + s)[1..] == s;
  }

  /** A text that neither starts nor ends with white space is its own strip. */
  lemma StripTrimmed(s: string)
    requires s != [] && !IsSpace(s[0]) && !IsSpace(s[|s| - 1])
    ensures Strip(s) == s
  {
  }

  /** `s[:n]` for `n >= 0`. */
  function Take(s: string, n: nat): (r: string)
    ensures |r| == if |s| <= n then |s| else n
    ensures r == s[..|r|]
  {
    if |s| <= n then s else s[..n]
  }

  /** `s.rfind(c)` for one character: the last index holding `c`, or -1. */
  function RFind(s: string, c: char): (r: int)
    ensures -1 <= r < |s|
    ensures r >= 0 ==> s[r] == c
    ensures forall i :: r < i < |s| ==> s[i] != c
    decreases |s|
  {
    if s == [] then -1
    else if s[|s| - 1] == c then |s| - 1
    else RFind(s[..|s| - 1], c)
  }

  predicate AllDots(s: string) {
    forall i :: 0 <= i < |s| ==> s[i] == '.'
  }

  /**
   * `os.path.splitext(p)` on POSIX: the extension starts at the last dot
   * after the last '/', unless only dots precede that dot in the last
   * path component (so ".html" has no extension).
   */
  function SplitExt(p: string): (r: (string, string))
    ensures r.0 + r.1 == p
  {
    var sep := RFind(p, '/');
    var dot := RFind(p, '.');
    if dot > sep && !AllDots(p[sep + 1..dot]) then
      SplitAt(p, dot);
      (p[..dot], p[dot..])
    else
      assert p + [] == p;
      (p, [])
  }

  /** A text is its two halves around any position. */
  lemma SplitAt(p: string, i: nat)
    requires i <= |p|
    ensures p[..i] + p[i..] == p
  {
  }

  /** `os.path.splitext(name)[0] + ".json"`, the output file name of an input file. */
  function JsonName(name: string): string {
    SplitExt(name).0 + ".json"
  }

  /**
   * A name as `os.listdir` can return it, ending in ".html" and with
   * something other than dots before the suffix.
   */
  predicate PlainHtmlName(name: string) {
    EndsWith(name, ".html") && '/' !in name && !AllDots(name[..|name| - 5])
  }

  /** For a plain name the output name is the input name with ".html" changed to ".json". */
  lemma JsonNameOfPlain(name: string)
    requires PlainHtmlName(name)
    ensures JsonName(name) == name[..|name| - 5] + ".json"
  {
    var n := |name|;
    assert name[n - 5..] == ".html";
    assert name[n - 5] == '.';
    assert forall i :: n - 5 < i < n ==> name[i] != '.';
    assert RFind(name, '.') == n - 5;
    assert RFind(name, '/') == -1;
    assert name[0..n - 5] == name[..n - 5];
  }

  /** When only dots precede ".html" the whole name is kept as the stem. */
  lemma JsonNameOfDotted(name: string)
    requires EndsWith(name, ".html") && '/' !in name && AllDots(name[..|name| - 5])
    ensures JsonName(name) == name + ".json"
  {
    var n := |name|;
    assert name[n - 5..] == ".html";
    assert name[n - 5] == '.';
    assert forall i :: n - 5 < i < n ==> name[i] != '.';
    assert RFind(name, '.') == n - 5;
    assert RFind(name, '/') == -1;
    assert name[0..n - 5] == name[..n - 5];
  }

  /** Two different plain input names never share an output name. */
  lemma JsonNameInjective(a: string, b: string)
    requires PlainHtmlName(a) && PlainHtmlName(b) && JsonName(a) == JsonName(b)
    ensures a == b
  {
    JsonNameOfPlain(a);
    JsonNameOfPlain(b);
    var sa, sb := a[..|a| - 5], b[..|b| - 5];
    assert sa + ".json" == sb + ".json";
    assert |sa| == |sb|;
    assert sa == (sa + ".json")[..|sa|] == (sb + ".json")[..|sb|] == sb;
    assert a == sa + a[|a| - 5..];
    assert b == sb + b[|b| - 5..];
  }

  /** The leading-dots rule makes ".html" and ".html.html" write the same output file. */
  lemma JsonNameCollision()
    ensures ".html" != ".html.html" && JsonName(".html") == JsonName(".html.html")
  {
    JsonNameOfDotted(".html");
    assert ".html"[1] != '.';
    assert ".html.html"[..5][1] != '.';
    JsonNameOfPlain(".html.html");
  }
}
