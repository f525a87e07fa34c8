/** The string operations of JavaScript that the sources rely on: `trim`, `split` and `join`. */
module Text {

  predicate IsDigit(c: char) {
    '0' <= c <= '9'
  }

  lemma DigitCharacters(c: char)
    ensures IsDigit(c) <==> c in "0123456789"
  {
    assert forall i: nat | i < 10 :: "0123456789"[i] == '0' + i as char;
    if IsDigit(c) {
      assert "0123456789"[(c - '0') as nat] == c;
    }
  }

  // ---------- trim ----------

  /** The characters `String.prototype.trim` removes. */
  predicate IsSpace(c: char) {
    || c in {'\t', '\n', '\U{000B}', '\U{000C}', '\r', ' '}
    || c in {'\U{00A0}', '\U{1680}', '\U{2028}', '\U{2029}', '\U{202F}', '\U{205F}', '\U{3000}', '\U{FEFF}'}
    || '\U{2000}' <= c <= '\U{200A}'
  }

  /** The code points that the language counts as white space or line terminators. */
  lemma SpaceCodes(c: char)
    ensures IsSpace(c) <==>
      || c as int in {9, 10, 11, 12, 13, 32, 160, 5_760, 8_232, 8_233, 8_239, 8_287, 12_288, 65_279}
      || 8_192 <= c as int <= 8_202
  {
  }

  predicate Blank(s: string) {
    forall c <- s :: IsSpace(c)
  }

  function TrimStart(s: string): string {
    if s != "" && IsSpace(s[0]) then TrimStart(s[1..]) else s
  }

  function TrimEnd(s: string): string {
    if s != "" && IsSpace(s[|s| - 1]) then TrimEnd(s[..|s| - 1]) else s
  }

  function Trim(s: string): string {
    TrimEnd(TrimStart(s))
  }

  /** Nothing to trim: non-empty, with no white space at either end. */
  predicate Tight(s: string) {
    s != "" && !IsSpace(s[0]) && !IsSpace(s[|s| - 1])
  }

  lemma {:induction false} TrimStartSkips(pre: string, s: string)
    requires Blank(pre) && (s == "" || !IsSpace(s[0]))
    ensures TrimStart(pre + s) == s
  {
    if pre == "" {
      assert pre + s == s;
    } else {
      assert (pre + s)[1..] == pre[1..] + s;
      TrimStartSkips(pre[1..], s);
    }
  }

  lemma {:induction false} TrimEndSkips(s: string, post: string)
    requires Blank(post) && (s == "" || !IsSpace(s[|s| - 1]))
    ensures TrimEnd(s + post) == s
  {
    if post == "" {
      assert s + post == s;
    } else {
      var n := |post| - 1;
      assert post[n] in post;
      assert (s + post)[..|s + post| - 1] == s + post[..n];
      TrimEndSkips(s, post[..n]);
    }
  }

  /** Trimming recovers a tight text from any white space around it. */
  lemma TrimSurrounded(pre: string, s: string, post: string)
    requires Blank(pre) && Blank(post) && Tight(s)
    ensures Trim(pre + s + post) == s
  {
    assert pre + s + post == pre + (s + post);
    TrimStartSkips(pre, s + post);
    TrimEndSkips(s, post);
  }

  lemma {:induction false} TrimStartDrops(s: string) returns (pre: string)
    ensures s == pre + TrimStart(s) && Blank(pre)
    ensures TrimStart(s) == "" || !IsSpace(TrimStart(s)[0])
  {
    if s != "" && IsSpace(s[0]) {
      var rest := TrimStartDrops(s[1..]);
      pre := [s[0]] + rest;
    } else {
      pre := "";
    }
  }

  lemma {:induction false} TrimEndDrops(s: string) returns (post: string)
    ensures s == TrimEnd(s) + post && Blank(post)
    ensures TrimEnd(s) == "" || !IsSpace(TrimEnd(s)[|TrimEnd(s)| - 1])
  {
    if s != "" && IsSpace(s[|s| - 1]) {
      var rest := TrimEndDrops(s[..|s| - 1]);
      post := rest + [s[|s| - 1]];
    } else {
      post := "";
    }
  }

  /** Trimming takes white space off both ends and nothing else, until there is none left to take. */
  lemma TrimMeaning(s: string) returns (pre: string, post: string)
    ensures s == pre + Trim(s) + post && Blank(pre) && Blank(post)
    ensures Trim(s) == "" || Tight(Trim(s))
  {
    pre := TrimStartDrops(s);
    post := TrimEndDrops(TrimStart(s));
    assert Trim(s) != "" ==> TrimStart(s)[0] == Trim(s)[0];
  }

  lemma BlankTrimsAway(s: string)
    ensures Trim(s) == "" <==> Blank(s)
  {
    var pre, post := TrimMeaning(s);
    assert Trim(s) != "" ==> Trim(s)[0] == s[|pre|];
  }

  /** White space around a text makes no difference to what is left of it. */
  lemma TrimAbsorbs(before: string, s: string, after: string)
    requires Blank(before) && Blank(after)
    ensures Trim(before + s + after) == Trim(s)
  {
    var pre, post := TrimMeaning(s);
    if Trim(s) == "" {
      BlankTrimsAway(before + s + after);
    } else {
      TrimSurrounded(before + pre, Trim(s), post + after);
      assert before + s + after == (before + pre) + Trim(s) + (post + after);
    }
  }

  // ---------- split on a character ----------

  function Split(s: string, sep: char): (parts: seq<string>)
    ensures 1 <= |parts|
    ensures forall part <- parts :: sep !in part
  {
    if s == "" then [""]
    else
      var rest := Split(s[1..], sep);
      if s[0] == sep then [""] + rest else [[s[0]] + rest[0]] + rest[1..]
  }

  function Join(parts: seq<string>, sep: char): string
    requires parts != []
  {
    if |parts| == 1 then parts[0] else parts[0] + [sep] + Join(parts[1..], sep)
  }

  /** A text that holds the separator splits into at least two parts. */
  lemma {:induction false} SplitFound(s: string, sep: char)
    ensures sep in s <==> 2 <= |Split(s, sep)|
  {
    if s != "" {
      SplitFound(s[1..], sep);
      assert s == [s[0]] + s[1..];
    }
  }

  lemma {:induction false} SplitPlain(s: string, sep: char)
    requires sep !in s
    ensures Split(s, sep) == [s]
  {
    if s != "" {
      SplitPlain(s[1..], sep);
      assert s == [s[0]] + s[1..];
    }
  }

  lemma {:induction false} SplitFirst(part: string, sep: char, rest: string)
    requires sep !in part
    ensures Split(part + [sep] + rest, sep) == [part] + Split(rest, sep)
  {
    var s := part + [sep] + rest;
    if part == "" {
      assert s[1..] == rest;
    } else {
      assert s[1..] == part[1..] + [sep] + rest;
      SplitFirst(part[1..], sep, rest);
      assert part == [part[0]] + part[1..];
    }
  }

  /** Splitting undoes joining when no part contains the separator. */
  lemma {:induction false} SplitJoin(parts: seq<string>, sep: char)
    requires parts != [] && forall part <- parts :: sep !in part
    ensures Split(Join(parts, sep), sep) == parts
  {
    if |parts| == 1 {
      SplitPlain(parts[0], sep);
    } else {
      SplitJoin(parts[1..], sep);
      SplitFirst(parts[0], sep, Join(parts[1..], sep));
    }
  }

  lemma {:induction false} JoinSplit(s: string, sep: char)
    ensures Join(Split(s, sep), sep) == s
  {
    if s != "" {
      JoinSplit(s[1..], sep);
      var rest := Split(s[1..], sep);
      if s[0] != sep && |rest| > 1 {
        assert ([[s[0]] + rest[0]] + rest[1..])[1..] == rest[1..];
      }
    }
  }

  // ---------- split on line ends ----------

  /** Splitting on `/\r?\n/`: a line feed ends a line and takes one carriage return before it along. */
  function SplitLines(s: string): (lines: seq<string>)
    ensures 1 <= |lines|
  {
    if s == "" then [""]
    else if s[0] == '\n' then [""] + SplitLines(s[1..])
    else if 2 <= |s| && s[0] == '\r' && s[1] == '\n' then [""] + SplitLines(s[2..])
    else
      var rest := SplitLines(s[1..]);
      [[s[0]] + rest[0]] + rest[1..]
  }

  datatype LineEnd = LF | CRLF {
    function Chars(): string {
      if LF? then "\n" else "\r\n"
    }
  }

  /** `lines`, each but the last followed by its own line end. */
  function JoinLines(lines: seq<string>, ends: seq<LineEnd>): string
    requires |lines| == |ends| + 1
  {
    if ends == [] then lines[0] else lines[0] + ends[0].Chars() + JoinLines(lines[1..], ends[1..])
  }

  /** A line that a line feed alone ends must not look as if it took a carriage return along. */
  predicate EndsWith(line: string, end: LineEnd) {
    end.LF? ==> line == "" || line[|line| - 1] != '\r'
  }

  /** Texts without line feeds, each but the last suited to its line end. */
  ghost predicate AreLines(lines: seq<string>, ends: seq<LineEnd>) {
    && |lines| == |ends| + 1
    && (forall line <- lines :: '\n' !in line)
    && forall i | 0 <= i < |ends| :: EndsWith(lines[i], ends[i])
  }

  lemma {:induction false} SplitLinesPlain(s: string)
    requires '\n' !in s
    ensures SplitLines(s) == [s]
  {
    if s != "" {
      SplitLinesPlain(s[1..]);
      assert s == [s[0]] + s[1..];
    }
  }

  lemma {:induction false} SplitLinesFirst(line: string, end: LineEnd, rest: string)
    requires '\n' !in line && EndsWith(line, end)
    ensures SplitLines(line + end.Chars() + rest) == [line] + SplitLines(rest)
  {
    var s := line + end.Chars() + rest;
    if line == "" {
      assert s[|end.Chars()|..] == rest;
    } else {
      assert s[1..] == line[1..] + end.Chars() + rest;
      SplitLinesFirst(line[1..], end, rest);
      assert line == [line[0]] + line[1..];
      assert s[0] == line[0];
      assert 2 <= |line| ==> s[1] == line[1];
      assert |line| == 1 ==> s[1] == end.Chars()[0];
    }
  }

  /** Splitting undoes joining for any mixture of line ends. */
  lemma {:induction false} SplitJoinLines(lines: seq<string>, ends: seq<LineEnd>)
    requires AreLines(lines, ends)
    ensures SplitLines(JoinLines(lines, ends)) == lines
  {
    assert lines[0] in lines;
    if ends == [] {
      SplitLinesPlain(lines[0]);
    } else {
      assert EndsWith(lines[0], ends[0]);
      assert forall i | 0 <= i < |ends| - 1 :: EndsWith(lines[1..][i], ends[1..][i]) by {
        forall i | 0 <= i < |ends| - 1
          ensures EndsWith(lines[1..][i], ends[1..][i])
        {
          assert EndsWith(lines[i + 1], ends[i + 1]);
        }
      }
      SplitJoinLines(lines[1..], ends[1..]);
      SplitLinesFirst(lines[0], ends[0], JoinLines(lines[1..], ends[1..]));
    }
  }

  /** `lines` with `c` before the first of them. */
  function Longer(c: char, lines: seq<string>): (longer: seq<string>)
    requires lines != []
    ensures |longer| == |lines| && longer[0] == [c] + lines[0] && longer[1..] == lines[1..]
    ensures forall i | 1 <= i < |lines| :: longer[i] == lines[i]
  {
    [[c] + lines[0]] + lines[1..]
  }

  lemma PrependToLine(c: char, lines: seq<string>, ends: seq<LineEnd>)
    requires AreLines(lines, ends) && c != '\n'
    requires lines[0] == "" && ends != [] && ends[0].LF? ==> c != '\r'
    ensures AreLines(Longer(c, lines), ends)
  {
    var longer := Longer(c, lines);
    forall i | 0 <= i < |longer|
      ensures '\n' !in longer[i]
    {
      assert '\n' !in lines[i];
    }
    forall i | 0 <= i < |ends|
      ensures EndsWith(longer[i], ends[i])
    {
      assert EndsWith(lines[i], ends[i]);
    }
  }

  lemma JoinLonger(c: char, lines: seq<string>, ends: seq<LineEnd>)
    requires |lines| == |ends| + 1
    ensures JoinLines(Longer(c, lines), ends) == [c] + JoinLines(lines, ends)
  {
  }

  lemma PrependLine(end: LineEnd, lines: seq<string>, ends: seq<LineEnd>)
    requires AreLines(lines, ends)
    ensures AreLines([""] + lines, [end] + ends)
    ensures JoinLines([""] + lines, [end] + ends) == end.Chars() + JoinLines(lines, ends)
  {
    forall i | 0 <= i < |ends| + 1
      ensures EndsWith(([""] + lines)[i], ([end] + ends)[i])
    {
      assert 0 < i ==> EndsWith(lines[i - 1], ends[i - 1]);
    }
  }

  /** And every text is split into lines that give it back, whatever carriage returns it holds. */
  lemma {:induction false} JoinSplitLines(s: string) returns (ends: seq<LineEnd>)
    ensures AreLines(SplitLines(s), ends) && JoinLines(SplitLines(s), ends) == s
  {
    if s == "" {
      ends := [];
    } else if s[0] == '\n' {
      var rest := JoinSplitLines(s[1..]);
      PrependLine(LF, SplitLines(s[1..]), rest);
      ends := [LF] + rest;
    } else if 2 <= |s| && s[0] == '\r' && s[1] == '\n' {
      var rest := JoinSplitLines(s[2..]);
      PrependLine(CRLF, SplitLines(s[2..]), rest);
      ends := [CRLF] + rest;
      assert s == "\r\n" + s[2..];
    } else {
      ends := JoinSplitLines(s[1..]);
      PrependToLine(s[0], SplitLines(s[1..]), ends);
      JoinLonger(s[0], SplitLines(s[1..]), ends);
      assert SplitLines(s) == Longer(s[0], SplitLines(s[1..]));
    }
  }
}
