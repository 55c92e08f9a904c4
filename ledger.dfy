/**
 * The ledger file `parsed.log`: one processed file name per line,
 * appended to and never rewritten. These functions give the set of names
 * a run reads back from the file's text.
 */
module Ledger {
  import opened Text
  import opened Seqs

  /** Reading in text mode turns "\r\n" and a lone "\r" into "\n". */
  function Universal(s: string): string
    decreases |s|
  {
    if s == [] then [] else Unit(s) + Universal(s[FirstUnit(s)..])
  }

  /** How many characters the first unit of `s` takes: a "\r\n" pair or one character. */
  function FirstUnit(s: string): (k: nat)
    requires s != []
    ensures 0 < k <= |s|
  {
    if s[0] == '\r' && |s| > 1 && s[1] == '\n' then 2 else 1
  }

  /** What the first unit of `s` reads as. */
  function Unit(s: string): string
    requires s != []
  {
    if s[0] == '\r' then ['\n'] else [s[0]]
  }

  /** Text without carriage returns reads back unchanged. */
  lemma {:induction false} UniversalPlain(s: string)
    requires '\r' !in s
    ensures Universal(s) == s
    decreases |s|
  {
    if s != [] {
      UniversalPlain(s[1..]);
      assert s == [s[0]] + s[1..];
    }
  }

  /** Text read in two pieces reads the same, unless the first piece ends inside a "\r\n". */
  lemma {:induction false} UniversalAppend(a: string, b: string)
    requires a == [] || a[|a| - 1] != '\r'
    ensures Universal(a + b) == Universal(a) + Universal(b)
    decreases |a|
  {
    if a == [] {
      assert a + b == b;
    } else {
      var k := FirstUnit(a);
      FirstUnitOfLonger(a, b);
      assert (a + b)[k..] == a[k..] + b;
      UniversalAppend(a[k..], b);
      var h, u, v := Unit(a), Universal(a[k..]), Universal(b);
      assert Universal(a + b) == h + (u + v);
      assert h + (u + v) == (h + u) + v;
    }
  }

  /** A text whose last character is no "\r" starts with the same unit however it goes on. */
  lemma FirstUnitOfLonger(a: string, b: string)
    requires a != [] && a[|a| - 1] != '\r'
    ensures FirstUnit(a + b) == FirstUnit(a) && Unit(a + b) == Unit(a)
  {
    assert (a + b)[0] == a[0];
    if a[0] == '\r' {
      assert |a| > 1 && (a + b)[1] == a[1];
    }
  }

  /** Text that ends with a line break still does after reading. */
  lemma {:induction false} UniversalTerminated(a: string)
    requires a != [] && a[|a| - 1] == '\n'
    ensures Universal(a) != [] && Universal(a)[|Universal(a)| - 1] == '\n'
    decreases |a|
  {
    var k := FirstUnit(a);
    if k < |a| {
      UniversalTerminated(a[k..]);
    } else {
      assert a[k..] == [];
      assert Unit(a) == ['\n'];
    }
  }

  /** The length of the first line: up to and including the first "\n", or all of `s`. */
  function LineEnd(s: string): (k: nat)
    requires s != []
    ensures 0 < k <= |s|
    decreases |s|
  {
    if s[0] == '\n' || |s| == 1 then 1 else 1 + LineEnd(s[1..])
  }

  /** The first line holds no "\n" but its last character, which is one unless the text ends there. */
  lemma {:induction false} LineEndFacts(s: string)
    requires s != []
    ensures forall i :: 0 <= i < LineEnd(s) - 1 ==> s[i] != '\n'
    ensures LineEnd(s) < |s| ==> s[LineEnd(s) - 1] == '\n'
    decreases |s|
  {
    if !(s[0] == '\n' || |s| == 1) {
      LineEndFacts(s[1..]);
      forall i | 0 <= i < LineEnd(s) - 1
        ensures s[i] != '\n'
      {
        if i > 0 {
          assert s[i] == s[1..][i - 1];
        }
      }
    }
  }

  /** `list(f)` for a file opened in text mode: each line keeps its "\n". */
  function Lines(s: string): seq<string>
    decreases |s|
  {
    if s == [] then [] else var k := LineEnd(s); [s[..k]] + Lines(s[k..])
  }

  /** Joining the lines gives back the text. */
  lemma {:induction false} LinesJoin(s: string)
    ensures Flatten(Lines(s)) == s
    decreases |s|
  {
    if s != [] {
      var k := LineEnd(s);
      LinesJoin(s[k..]);
      assert Lines(s) == [s[..k]] + Lines(s[k..]);
      FlattenCons(s[..k], Lines(s[k..]));
      SplitAt(s, k);
    }
  }

  /** Every line is non-empty, holds a "\n" only as its last character, and every line but the last ends in one. */
  lemma {:induction false} LinesShape(s: string, j: nat)
    requires j < |Lines(s)|
    ensures var l := Lines(s)[j];
      && l != []
      && (forall i :: 0 <= i < |l| - 1 ==> l[i] != '\n')
      && (j < |Lines(s)| - 1 ==> l[|l| - 1] == '\n')
    decreases |s|
  {
    var k := LineEnd(s);
    if j > 0 {
      LinesShape(s[k..], j - 1);
    } else {
      LineEndFacts(s);
      if |Lines(s)| > 1 {
        assert s[k..] != [];
      }
    }
  }

  /** After a complete line, what follows starts a new line. */
  lemma {:induction false} LinesAppend(a: string, b: string)
    requires a == [] || a[|a| - 1] == '\n'
    ensures Lines(a + b) == Lines(a) + Lines(b)
    decreases |a|
  {
    if a == [] {
      assert a + b == b;
    } else {
      var k := LineEnd(a);
      if k < |a| {
        LinesAppend(a[k..], b);
      } else {
        assert a[k..] == [] && a[k..] + b == b;
      }
      LinesStep(a, b);
    }
  }

  /** The first line of `a + b` is that of `a`, when `a` is complete. */
  lemma LinesStep(a: string, b: string)
    requires a != [] && a[|a| - 1] == '\n'
    requires Lines(a[LineEnd(a)..] + b) == Lines(a[LineEnd(a)..]) + Lines(b)
    ensures Lines(a + b) == Lines(a) + Lines(b)
  {
    var k := LineEnd(a);
    var x, y := a[..k], a[k..];
    SplitAt(a, k);
    ConcatAssoc(x, y, b);
    LineEndOfLonger(a, b);
    LinesFirst(a + b, x, y + b);
    LinesFirst(a, x, y);
    ConcatAssoc([x], Lines(y), Lines(b));
  }

  /** A text that starts with a whole first line splits after it. */
  lemma LinesFirst(s: string, first: string, rest: string)
    requires s != [] && s == first + rest && |first| == LineEnd(s)
    ensures Lines(s) == [first] + Lines(rest)
  {
    assert s[..|first|] == first && s[|first|..] == rest;
  }

  /** A complete first line stays the first line whatever follows. */
  lemma {:induction false} LineEndOfLonger(a: string, b: string)
    requires a != [] && a[|a| - 1] == '\n'
    ensures LineEnd(a + b) == LineEnd(a)
    decreases |a|
  {
    assert (a + b)[0] == a[0];
    if a[0] != '\n' {
      assert |a| > 1;
      assert (a + b)[1..] == a[1..] + b;
      LineEndOfLonger(a[1..], b);
    }
  }

  /** One name written with its "\n" is one line. */
  lemma OneLine(name: string)
    requires '\n' !in name
    ensures Lines(name + "\n") == [name + "\n"]
  {
    var s := name + "\n";
    var k := LineEnd(s);
    LineEndFacts(s);
    assert forall i :: 0 <= i < |name| ==> s[i] == name[i];
    assert k == |s|;
    assert s[..k] == s && s[k..] == [];
  }

  /** `set(line.strip() for line in f if line.strip())` over the ledger's text. */
  function Names(content: string): set<string> {
    NamesOf(Lines(Universal(content)))
  }

  function NamesOf(lines: seq<string>): set<string> {
    set l | l in lines && Strip(l) != [] :: Strip(l)
  }

  /** One more line adds its strip, when that is not empty. */
  lemma NamesOfSnoc(lines: seq<string>, line: string)
    ensures NamesOf(lines + [line]) == NamesOf(lines) + (if Strip(line) != [] then {Strip(line)} else {})
  {
    assert forall l :: l in lines + [line] <==> l in lines || l == line;
  }

  /** A single line gives its strip. */
  lemma NamesOfOne(line: string)
    requires Strip(line) != []
    ensures NamesOf([line]) == {Strip(line)}
  {
    NamesOfSnoc([], line);
    assert [] + [line] == [line];
  }

  /** The ledger's text is empty or its last line is complete. */
  predicate Terminated(content: string) {
    content == [] || content[|content| - 1] == '\n'
  }

  /** A name that reads back as itself from its own ledger line. */
  predicate Recordable(name: string) {
    name != [] && '\n' !in name && '\r' !in name && !IsSpace(name[0]) && !IsSpace(name[|name| - 1])
  }

  /** The line written for a recordable name strips back to the name. */
  lemma StripLine(name: string)
    requires Recordable(name)
    ensures Strip(name + "\n") == name
  {
    var line := name + "\n";
    assert line[0] == name[0];
    assert StripStart(line) == line;
    assert IsSpace(line[|line| - 1]);
    assert line[..|line| - 1] == name;
    assert StripEnd(line) == StripEnd(name);
  }

  /**
   * Appending `name + "\n"` to a terminated ledger adds exactly `name` to
   * the names read back, and leaves the ledger terminated.
   */
  lemma AppendRecords(content: string, name: string)
    requires Terminated(content) && Recordable(name)
    ensures Names(content + name + "\n") == Names(content) + {name}
    ensures Terminated(content + name + "\n")
  {
    var line := name + "\n";
    ConcatAssoc(content, name, "\n");
    UniversalAppend(content, line);
    assert '\r' !in line;
    UniversalPlain(line);
    var u := Universal(content);
    if content != [] {
      UniversalTerminated(content);
    }
    LinesAppend(u, line);
    OneLine(name);
    StripLine(name);
    var lines := Lines(u);
    assert Lines(Universal(content + line)) == lines + [line];
    NamesOfSnoc(lines, line);
    assert Names(content + line) == NamesOf(lines + [line]);
    var full := content + line;
    assert full[|full| - 1] == '\n';
  }

  /** The text a run appends: one line per recorded name, in order. */
  function Entries(names: seq<string>): string {
    if names == [] then [] else Entries(names[..|names| - 1]) + names[|names| - 1] + "\n"
  }

  /**
   * Appending the lines of recordable names to a terminated ledger adds
   * exactly those names to the names read back.
   */
  lemma {:induction false} AppendAll(content: string, names: seq<string>)
    requires Terminated(content)
    requires forall n :: n in names ==> Recordable(n)
    ensures forall x :: x in Names(content + Entries(names)) <==> x in Names(content) || x in names
    ensures Terminated(content + Entries(names))
  {
    if names == [] {
      assert content + Entries(names) == content;
    } else {
      var init := names[..|names| - 1];
      assert names == init + [names[|names| - 1]];
      assert forall n :: n in init ==> n in names;
      AppendAll(content, init);
      AppendOneMore(content, init, names[|names| - 1]);
    }
  }

  /** The step of `AppendAll`: one more recorded name. */
  lemma AppendOneMore(content: string, init: seq<string>, last: string)
    requires Terminated(content + Entries(init)) && Recordable(last)
    requires forall x :: x in Names(content + Entries(init)) <==> x in Names(content) || x in init
    ensures forall x :: x in Names(content + Entries(init + [last])) <==> x in Names(content) || x in init + [last]
    ensures Terminated(content + Entries(init + [last]))
  {
    var names := init + [last];
    var before := content + Entries(init);
    var full := content + Entries(names);
    assert full == before + last + "\n" by {
      assert names[..|names| - 1] == init;
    }
    AppendRecords(before, last);
    var grown := before + last + "\n";
    assert Names(full) == Names(grown);
    assert Names(grown) == Names(before) + {last};
  }

  /** A ledger that is one line reads back as that line's strip. */
  lemma NamesOneLine(text: string, stripped: string)
    requires '\n' !in text && '\r' !in text && Strip(text + "\n") == stripped && stripped != []
    ensures Names(text + "\n") == {stripped}
  {
    var line := text + "\n";
    assert '\r' !in line;
    UniversalPlain(line);
    OneLine(text);
    NamesOfOne(line);
  }

  /**
   * A line whose name carries leading white space is read back without
   * it, so the name as listed never matches its ledger line.
   */
  lemma LeadingSpaceNeverMatches(c: char, name: string)
    requires IsSpace(c) && c != '\n' && c != '\r' && Recordable(name)
    ensures Names([c] + name + "\n") == {name}
    ensures [c] + name != name
  {
    StripSpaceLine(c, name);
    NamesOneLine([c] + name, name);
    assert |[c] + name| != |name|;
  }

  /** A line with one leading white-space character strips to the name. */
  lemma StripSpaceLine(c: char, name: string)
    requires IsSpace(c) && Recordable(name)
    ensures Strip([c] + name + "\n") == name
  {
    assert [c] + name + "\n" == [c] + (name + "\n");
    StripSpaceFirst(c, name + "\n");
    StripLine(name);
  }

  /**
   * A ledger whose last line lacks its "\n" glues the next name onto it:
   * neither name is read back, only their concatenation.
   */
  lemma UnterminatedGlues(last: string, name: string)
    requires Recordable(last) && Recordable(name)
    ensures Names(last + name + "\n") == {last + name}
    ensures last + name != name && last + name != last
  {
    var glued := last + name;
    assert glued[0] == last[0] && glued[|glued| - 1] == name[|name| - 1];
    assert '\n' !in glued && '\r' !in glued;
    StripLine(glued);
    NamesOneLine(glued, glued);
    assert |glued| != |name| && |glued| != |last|;
  }
}
