/** The update configuration: one `name path` line for each image. */
module ConfigFile {

  const MAX_IMAGES: nat := 5
  const ROW: nat := 128

  function Supported(): (s: seq<string>)
    ensures |s| == 5
  {
    ["SAIL_HYP", "SAIL_SW1", "SAIL_SW2", "SAIL_SW3", "SAIL_SW4"]
  }

  datatype Entry = Entry(name: string, path: string)
  datatype Parsed = Refused | Accepted(entries: seq<Entry>)
  datatype Token = NoToken | Token(text: string, rest: string)

  // ---- C strings ----

  /** The characters before the first ch. */
  function Upto(s: string, ch: char): (u: string)
    ensures |u| <= |s| && u == s[..|u|] && ch !in u
    ensures |u| < |s| ==> s[|u|] == ch
  {
    if s == [] || s[0] == ch then [] else [s[0]] + Upto(s[1..], ch)
  }

  lemma {:induction false} UptoEnds(a: string, ch: char, b: string)
    requires ch !in a
    ensures Upto(a + [ch] + b, ch) == a
    ensures Upto(a, ch) == a
  {
    if a == [] {
      assert a + [ch] + b == [ch] + b;
    } else {
      assert (a + [ch] + b)[1..] == a[1..] + [ch] + b;
      UptoEnds(a[1..], ch, b);
    }
  }

  function SkipSpaces(s: string): (t: string)
    ensures |t| <= |s| && (t != [] ==> t[0] != ' ')
  {
    if s != [] && s[0] == ' ' then SkipSpaces(s[1..]) else s
  }

  /** strtok_r with a single space as delimiter. */
  function NextToken(s: string): (t: Token)
    ensures t.Token? ==> t.text != [] && ' ' !in t.text && |t.text| + |t.rest| <= |s|
  {
    var from := SkipSpaces(s);
    if from == [] then NoToken else
    var text := Upto(from, ' ');
    Token(text, if |text| < |from| then from[|text| + 1..] else [])
  }

  /** k spaces, a word without spaces, and either a space and the rest or nothing. */
  ghost predicate SplitAt(s: string, k: nat, text: string, rest: string) {
    && k <= |s| && (forall i | 0 <= i < k :: s[i] == ' ') && text != [] && ' ' !in text
    && (s[k..] == text + " " + rest || (s[k..] == text && rest == []))
  }

  /** What a token is: strtok_r's result from the shape of the string alone. */
  lemma TokenExactly(s: string, text: string, rest: string)
    ensures NextToken(s) == Token(text, rest) <==> exists k: nat :: SplitAt(s, k, text, rest)
    ensures NextToken(s) == NoToken <==> forall i | 0 <= i < |s| :: s[i] == ' '
  {
    hide SplitAt;
    Skipped(s);
    if NextToken(s) == Token(text, rest) {
      TokenSplits(s, text, rest);
    }
    if k: nat :| SplitAt(s, k, text, rest) {
      SplitIsToken(s, k, text, rest);
    }
  }

  lemma {:induction false} Skipped(s: string)
    ensures var n := |s| - |SkipSpaces(s)|;
      SkipSpaces(s) == s[n..] && forall i | 0 <= i < n :: s[i] == ' '
  {
    if s != [] && s[0] == ' ' {
      Skipped(s[1..]);
      var n := |s| - |SkipSpaces(s)|;
      forall i | 0 <= i < n
        ensures s[i] == ' '
      {
        if i > 0 {
          assert s[1..][i - 1] == s[i];
        }
      }
    }
  }

  lemma TokenSplits(s: string, text: string, rest: string)
    requires NextToken(s) == Token(text, rest)
    ensures SplitAt(s, |s| - |SkipSpaces(s)|, text, rest)
  {
    hide Upto, SkipSpaces;
    Skipped(s);
    var from := SkipSpaces(s);
    if |text| < |from| {
      CutAt(from, |text|, text, rest);
    }
  }

  lemma CutAt(s: string, n: nat, text: string, rest: string)
    requires n < |s| && s[n] == ' ' && text == s[..n] && rest == s[n + 1..]
    ensures s == text + " " + rest
  {
    assert [s[n]] == " ";
    assert s[n..] == [s[n]] + rest;
    assert s == s[..n] + s[n..];
  }

  lemma SplitIsToken(s: string, k: nat, text: string, rest: string)
    requires SplitAt(s, k, text, rest)
    ensures NextToken(s) == Token(text, rest)
  {
    SkipAll(s, k);
    assert s[k] == text[0];
    UptoEnds(text, ' ', rest);
    if s[k..] == text + " " + rest {
      assert s[k..][|text| + 1..] == rest;
    }
  }

  lemma {:induction false} SkipAll(s: string, k: nat)
    requires k < |s| && (forall i | 0 <= i < k :: s[i] == ' ') && s[k] != ' '
    ensures SkipSpaces(s) == s[k..]
  {
    if k > 0 {
      SkipAll(s[1..], k - 1);
    }
  }

  /** A line end is dropped: first CR LF is looked for, then LF. */
  function Chomped(s: string): (t: string)
    ensures |t| <= |s| && t == s[..|t|]
  {
    if |s| >= 2 && s[|s| - 2] == '\r' && s[|s| - 1] == '\n' then s[..|s| - 2]
    else if |s| >= 1 && s[|s| - 1] == '\n' then s[..|s| - 1]
    else s
  }

  /** What is dropped: one CR LF, or one LF that no CR precedes; a CR elsewhere stays, and
      without a line end nothing is dropped. */
  lemma ChompedExactly(s: string, t: string)
    ensures Chomped(s) == t <==>
      || s == t + "\r\n"
      || (s == t + "\n" && (t == [] || t[|t| - 1] != '\r'))
      || (s == t && (t == [] || t[|t| - 1] != '\n'))
  {
    var n := |s|;
    if n >= 2 && s[n - 2] == '\r' && s[n - 1] == '\n' {
      assert s == s[..n - 2] + "\r\n";
    } else if n >= 1 && s[n - 1] == '\n' {
      assert s == s[..n - 1] + "\n";
    }
  }

  /** What getline returns: through the first LF, or all that is left. */
  function FirstLine(s: string): (line: string)
    requires s != []
    ensures 0 < |line| <= |s| && line == s[..|line|]
  {
    var u := Upto(s, '\n');
    if |u| < |s| then s[..|u| + 1] else s
  }

  function Lines(s: string): seq<string>
    decreases |s|
  {
    if s == [] then [] else [FirstLine(s)] + Lines(s[|FirstLine(s)|..])
  }

  // ---- what a configuration means ----

  /** A line of exactly two tokens that fit their rows; the characters after a NUL are not seen. */
  predicate GoodLine(line: string) {
    var name := NextToken(Upto(line, '\0'));
    name.Token? && |name.text| <= ROW &&
    var path := NextToken(name.rest);
    path.Token? && |Chomped(path.text)| <= ROW && NextToken(path.rest).NoToken?
  }

  function LineEntry(line: string): (e: Entry)
    requires GoodLine(line)
    ensures |e.path| <= ROW
  {
    var name := NextToken(Upto(line, '\0'));
    Entry(name.text, Chomped(NextToken(name.rest).text))
  }

  ghost predicate Distinct(entries: seq<Entry>) {
    forall i, j | 0 <= i < j < |entries| :: entries[i].name != entries[j].name
  }

  predicate AllSupported(entries: seq<Entry>) {
    forall i | 0 <= i < |entries| :: entries[i].name in Supported()
  }

  /** The meaning of a file, line by line. */
  ghost predicate Means(content: string, entries: seq<Entry>) {
    && |Lines(content)| == |entries| && 1 <= |entries| <= 5
    && (forall i | 0 <= i < |entries| :: GoodLine(Lines(content)[i]) && LineEntry(Lines(content)[i]) == entries[i])
    && Distinct(entries) && AllSupported(entries)
  }

  // ---- rtss_updater_cfgfile_read ----

  predicate Named(entries: seq<Entry>, name: string) {
    exists i | 0 <= i < |entries| :: entries[i].name == name
  }

  /** The parser's result when `done` has been read and `content` is left. */
  function ParseFrom(content: string, done: seq<Entry>): Parsed
    decreases |content|
  {
    if content == [] then (if done != [] && AllSupported(done) then Accepted(done) else Refused) else
    var line := FirstLine(content);
    if !GoodLine(line) || |done| >= MAX_IMAGES || Named(done, LineEntry(line).name) then Refused
    else ParseFrom(content[|line|..], done + [LineEntry(line)])
  }

  /** rtss_updater_imgconfig_t; the paths lie one after the other in rows of 128 characters. */
  class ImageConfig {
    var numberOfImages: nat
    var numberOfPaths: nat
    var names: seq<string>
    const paths: array<char>

    constructor ()
      ensures numberOfImages == numberOfPaths == 0 && fresh(paths) && paths.Length == MAX_IMAGES * ROW
      ensures forall k | 0 <= k < paths.Length :: paths[k] == '\0'
    {
      numberOfImages, numberOfPaths, names := 0, 0, [];
      paths := new char[640](_ => '\0');
    }

    /** The row of path i holds the path, padded with NULs. */
    ghost predicate Holds(i: nat, path: string)
      reads this, paths
    {
      paths.Length == MAX_IMAGES * ROW && RowHolds(paths[..], i, path)
    }

    ghost predicate HoldsAll(entries: seq<Entry>)
      reads this, paths
    {
      && |names| == |entries| <= MAX_IMAGES
      && forall i | 0 <= i < |entries| :: names[i] == entries[i].name && Holds(i, entries[i].path)
    }

    method StorePath(i: nat, path: string)
      requires i < MAX_IMAGES && paths.Length == MAX_IMAGES * ROW && |path| <= ROW && '\0' !in path
      modifies paths
      ensures Holds(i, path)
      ensures forall k | 0 <= k < paths.Length && !(ROW * i <= k < ROW * i + ROW) :: paths[k] == old(paths[k])
    {
      forall k | 0 <= k < ROW {
        paths[ROW * i + k] := if k < |path| then path[k] else '\0';
      }
      assert paths[..][ROW * i..ROW * i + ROW] == path + seq(ROW - |path|, _ => '\0');
    }

    /** One line: its name and path are stored, or the file is refused. */
    method ReadLine(line: string, ghost done: seq<Entry>) returns (ok: bool)
      requires HoldsAll(done) && paths.Length == MAX_IMAGES * ROW
      modifies this, paths
      ensures ok <==> GoodLine(line) && |done| < MAX_IMAGES && !Named(done, LineEntry(line).name)
      ensures ok ==> HoldsAll(done + [LineEntry(line)])
      ensures ok ==> forall k | ROW * (|done| + 1) <= k < paths.Length :: paths[k] == old(paths[k])
    {
      hide GoodLine, NextToken, Chomped, Upto;
      LineCases(line);
      var name := NextToken(Upto(line, '\0'));
      if name.NoToken? {
        return false;
      }
      if |names| >= MAX_IMAGES {
        return false;
      }
      var duplicate := FindDuplicate(name.text, done);
      if duplicate {
        RefusedDuplicate(line, done, name.text);
        return false;
      }
      if |name.text| > ROW {
        return false;
      }
      var path := NextToken(name.rest);
      if path.NoToken? {
        return false;
      }
      var text := Chomped(path.text);
      if |text| > ROW {
        return false;
      }
      if NextToken(path.rest).Token? {
        return false;
      }
      StoreEntry(name.text, text, done);
      ok := true;
    }

    method StoreEntry(name: string, path: string, ghost done: seq<Entry>)
      requires HoldsAll(done) && paths.Length == MAX_IMAGES * ROW && |done| < MAX_IMAGES
      requires |path| <= ROW && '\0' !in path
      modifies this, paths
      ensures HoldsAll(done + [Entry(name, path)])
      ensures forall k | ROW * (|done| + 1) <= k < paths.Length :: paths[k] == old(paths[k])
    {
      ghost var before := paths[..];
      var n := |names|;
      StorePath(n, path);
      names := names + [name];
      forall i | 0 <= i < n
        ensures Holds(i, done[i].path)
      {
        assert paths[..][ROW * i..ROW * i + ROW] == before[ROW * i..ROW * i + ROW];
      }
    }

    /** The loop over getline, then the check of the names. Numbers are stored last. */
    method Read(content: string) returns (ok: bool)
      requires paths.Length == MAX_IMAGES * ROW
      modifies this, paths
      ensures ok <==> ParseFrom(content, []).Accepted?
      ensures ok ==> HoldsAll(ParseFrom(content, []).entries)
      ensures ok ==> numberOfImages == numberOfPaths == |ParseFrom(content, []).entries|
      ensures ok ==> forall k | ROW * numberOfPaths <= k < paths.Length :: paths[k] == old(paths[k])
    {
      hide GoodLine, AllSupported, LineEntry, FirstLine;
      names := [];
      var rest := content;
      ghost var done: seq<Entry> := [];
      while rest != []
        invariant ParseFrom(content, []) == ParseFrom(rest, done)
        invariant HoldsAll(done)
        invariant forall k | ROW * |done| <= k < paths.Length :: paths[k] == old(paths[k])
        decreases |rest|
      {
        var line := FirstLine(rest);
        var read := ReadLine(line, done);
        if !read {
          return false;
        }
        done := done + [LineEntry(line)];
        rest := rest[|line|..];
      }
      var supported := CheckSupported(done);
      if !supported {
        return false;
      }
      numberOfImages, numberOfPaths := |names|, |names|;
      if numberOfImages <= 0 {
        return false;
      }
      ok := true;
    }

    method FindDuplicate(name: string, ghost done: seq<Entry>) returns (found: bool)
      requires HoldsAll(done)
      ensures found <==> Named(done, name)
    {
      for i := 0 to |names|
        invariant forall k | 0 <= k < i :: done[k].name != name
      {
        if names[i] == name {
          assert done[i].name == name;
          return true;
        }
      }
      found := false;
    }

    /** Each name must equal one supported name. */
    method CheckSupported(ghost done: seq<Entry>) returns (ok: bool)
      requires HoldsAll(done)
      ensures ok <==> AllSupported(done)
    {
      var supported := Supported();
      for i := 0 to |names|
        invariant forall k | 0 <= k < i :: done[k].name in Supported()
      {
        var count := 0;
        for j := 0 to |supported|
          invariant count == if names[i] in supported[..j] then 1 else 0
        {
          if names[i] == supported[j] {
            SupportedDistinct(j);
            count := count + 1;
          }
        }
        assert supported[..|supported|] == supported;
        if count != 1 {
          assert done[i].name !in Supported();
          return false;
        }
      }
      ok := true;
    }
  }

  lemma SupportedDistinct(j: nat)
    requires j < 5
    ensures Supported()[j] !in Supported()[..j]
  {
    var s := Supported();
    assert s[0][5] == 'H' && s[1][7] == '1' && s[2][7] == '2' && s[3][7] == '3' && s[4][7] == '4';
    assert s[1][5] == 'S' && s[2][5] == 'S' && s[3][5] == 'S' && s[4][5] == 'S';
  }

  /** GoodLine test by test, as the parser makes them. */
  lemma LineCases(line: string)
    ensures var name := NextToken(Upto(line, '\0'));
      && (name.NoToken? ==> !GoodLine(line))
      && (name.Token? ==>
            var path := NextToken(name.rest);
            && (path.NoToken? || |name.text| > ROW ==> !GoodLine(line))
            && (path.Token? ==>
                  && '\0' !in Chomped(path.text)
                  && (|Chomped(path.text)| > ROW || NextToken(path.rest).Token? ==> !GoodLine(line))
                  && (|name.text| <= ROW && |Chomped(path.text)| <= ROW && NextToken(path.rest).NoToken? ==>
                        GoodLine(line) && LineEntry(line) == Entry(name.text, Chomped(path.text)))))
  {
    NoNul(Upto(line, '\0'), '\0');
  }

  /** Tokens are made of the characters of the string. */
  lemma NoNul(s: string, ch: char)
    requires ch !in s
    ensures var t := NextToken(s); t.Token? ==>
      (&& ch !in t.text && ch !in t.rest
       && var u := NextToken(t.rest); u.Token? ==> ch !in u.text && ch !in Chomped(u.text))
  {
    TokenChars(s, ch);
    var t := NextToken(s);
    if t.Token? {
      TokenChars(t.rest, ch);
    }
  }

  lemma TokenChars(s: string, ch: char)
    requires ch !in s
    ensures var t := NextToken(s); t.Token? ==> ch !in t.text && ch !in t.rest
  {
    SkipChars(s, ch);
  }

  lemma {:induction false} SkipChars(s: string, ch: char)
    requires ch !in s
    ensures ch !in SkipSpaces(s)
  {
    if s != [] && s[0] == ' ' {
      SkipChars(s[1..], ch);
    }
  }

  lemma RefusedDuplicate(line: string, done: seq<Entry>, name: string)
    requires Named(done, name) && NextToken(Upto(line, '\0')).Token? && NextToken(Upto(line, '\0')).text == name
    ensures GoodLine(line) ==> Named(done, LineEntry(line).name)
  {
  }

  // ---- the parser computes the meaning ----

  /** Each line means the entry at its place, counted from n. */
  ghost predicate EachMeans(lines: seq<string>, entries: seq<Entry>, n: nat)
    requires |entries| == n + |lines|
  {
    forall i | 0 <= i < |lines| :: GoodLine(lines[i]) && LineEntry(lines[i]) == entries[n + i]
  }

  /** What the lines left mean when `done` has been read. */
  ghost predicate MeansAfter(lines: seq<string>, done: seq<Entry>, entries: seq<Entry>) {
    && |entries| == |done| + |lines| && 1 <= |entries| <= MAX_IMAGES && entries[..|done|] == done
    && EachMeans(lines, entries, |done|)
    && Distinct(entries) && AllSupported(entries)
  }

  lemma NoLinesLeft(done: seq<Entry>, entries: seq<Entry>)
    requires |done| <= MAX_IMAGES && Distinct(done)
    ensures MeansAfter([], done, entries) <==> entries == done && done != [] && AllSupported(done)
  {
    hide AllSupported;
    if |entries| == |done| {
      assert entries[..|done|] == entries;
    }
  }

  lemma LineRefused(lines: seq<string>, done: seq<Entry>, entries: seq<Entry>)
    requires lines != [] && |done| <= MAX_IMAGES
    requires !GoodLine(lines[0]) || |done| >= MAX_IMAGES || Named(done, LineEntry(lines[0]).name)
    ensures !MeansAfter(lines, done, entries)
  {
    hide GoodLine, AllSupported, LineEntry;
    if GoodLine(lines[0]) && Named(done, LineEntry(lines[0]).name) {
      DuplicateRefused(done, LineEntry(lines[0]), entries);
    }
  }

  lemma LineTaken(lines: seq<string>, done: seq<Entry>, entries: seq<Entry>)
    requires lines != [] && GoodLine(lines[0])
    ensures MeansAfter(lines, done, entries) <==> MeansAfter(lines[1..], done + [LineEntry(lines[0])], entries)
  {
    hide GoodLine, AllSupported, LineEntry, Distinct;
    if |entries| == |done| + |lines| {
      Shifted(lines, done, LineEntry(lines[0]), entries);
    }
  }

  lemma DistinctMore(done: seq<Entry>, e: Entry)
    requires Distinct(done) && !Named(done, e.name)
    ensures Distinct(done + [e])
  {
  }

  lemma {:induction false} ParsesFrom(content: string, done: seq<Entry>, entries: seq<Entry>)
    requires |done| <= MAX_IMAGES && Distinct(done)
    ensures ParseFrom(content, done) == Accepted(entries) <==> MeansAfter(Lines(content), done, entries)
    decreases |content|
  {
    hide GoodLine, AllSupported, LineEntry, MeansAfter, Distinct, Named, FirstLine;
    if content == [] {
      NoLinesLeft(done, entries);
    } else {
      var line := FirstLine(content);
      var rest := content[|line|..];
      assert Lines(content)[0] == line && Lines(content)[1..] == Lines(rest);
      if !GoodLine(line) || |done| >= MAX_IMAGES || Named(done, LineEntry(line).name) {
        LineRefused(Lines(content), done, entries);
      } else {
        DistinctMore(done, LineEntry(line));
        ParsesFrom(rest, done + [LineEntry(line)], entries);
        LineTaken(Lines(content), done, entries);
      }
    }
  }

  lemma DuplicateRefused(done: seq<Entry>, e: Entry, entries: seq<Entry>)
    requires Named(done, e.name)
    ensures |entries| > |done| && entries[..|done|] == done && entries[|done|] == e ==> !Distinct(entries)
  {
    var i :| 0 <= i < |done| && done[i].name == e.name;
    if |entries| > |done| && entries[..|done|] == done {
      assert entries[i] == done[i];
    }
  }

  /** Taking the first line to the entries already read. */
  lemma Shifted(lines: seq<string>, done: seq<Entry>, e: Entry, entries: seq<Entry>)
    requires lines != [] && GoodLine(lines[0]) && LineEntry(lines[0]) == e
    requires |entries| == |done| + |lines|
    ensures entries[..|done| + 1] == done + [e] && EachMeans(lines[1..], entries, |done| + 1)
       <==> entries[..|done|] == done && EachMeans(lines, entries, |done|)
  {
    hide GoodLine, LineEntry;
    var n := |done|;
    if entries[..n + 1] == done + [e] && EachMeans(lines[1..], entries, n + 1) {
      assert entries[..n] == entries[..n + 1][..n] == done;
      assert entries[n] == entries[..n + 1][n] == e;
      forall i | 0 <= i < |lines|
        ensures GoodLine(lines[i]) && LineEntry(lines[i]) == entries[n + i]
      {
        if i > 0 {
          assert lines[1..][i - 1] == lines[i];
        }
      }
    }
    if entries[..n] == done && EachMeans(lines, entries, n) {
      assert entries[n] == e;
      assert entries[..n + 1] == entries[..n] + [e];
      forall i | 0 <= i < |lines[1..]|
        ensures GoodLine(lines[1..][i]) && LineEntry(lines[1..][i]) == entries[n + 1 + i]
      {
        assert lines[1..][i] == lines[i + 1];
      }
    }
  }

  /** The file is accepted with a list of entries exactly when that is what its lines mean. */
  lemma AcceptedExactly(content: string, entries: seq<Entry>)
    ensures ParseFrom(content, []) == Accepted(entries) <==> Means(content, entries)
  {
    hide GoodLine, AllSupported, LineEntry, ParseFrom;
    ParsesFrom(content, [], entries);
  }

  // ---- round trip ----

  /** Nothing: the end of a last line that the file's end ends. */
  datatype Ending = Lf | CrLf | Nothing

  function Eol(e: Ending): string {
    if e.Lf? then "\n" else if e.CrLf? then "\r\n" else ""
  }

  /** Every line but the last has an end. */
  predicate EndingsFit(endings: seq<Ending>) {
    forall i | 0 <= i < |endings| - 1 :: !endings[i].Nothing?
  }

  function Rendered(e: Entry, ending: Ending): string {
    e.name + " " + e.path + Eol(ending)
  }

  function Render(entries: seq<Entry>, endings: seq<Ending>): string
    requires |endings| == |entries|
  {
    if entries == [] then [] else Rendered(entries[0], endings[0]) + Render(entries[1..], endings[1..])
  }

  predicate Plain(s: string) {
    ' ' !in s && '\r' !in s && '\n' !in s && '\0' !in s
  }

  /** An entry that can be written down. */
  predicate Writable(e: Entry) {
    e.name in Supported() && Plain(e.path) && 1 <= |e.path| <= 128
  }

  lemma SupportedPlain(name: string)
    requires name in Supported()
    ensures Plain(name) && |name| == 8
  {
    var i :| 0 <= i < 5 && Supported()[i] == name;
    assert |"SAIL_HYP"| == 8 && Plain("SAIL_HYP");
    assert |"SAIL_SW1"| == 8 && Plain("SAIL_SW1");
    assert |"SAIL_SW2"| == 8 && Plain("SAIL_SW2");
    assert |"SAIL_SW3"| == 8 && Plain("SAIL_SW3");
    assert |"SAIL_SW4"| == 8 && Plain("SAIL_SW4");
  }

  lemma RenderedLine(e: Entry, ending: Ending, rest: string)
    requires Plain(e.name) && Plain(e.path) && (ending.Nothing? ==> rest == [])
    ensures Rendered(e, ending) + rest != [] && FirstLine(Rendered(e, ending) + rest) == Rendered(e, ending)
  {
    var body := e.name + " " + e.path + (if ending.CrLf? then "\r" else "");
    UptoEnds(body, '\n', rest);
    if ending.Nothing? {
      assert Rendered(e, ending) + rest == body;
    } else {
      assert Rendered(e, ending) == body + ['\n'];
      assert Rendered(e, ending) + rest == body + ['\n'] + rest;
    }
  }

  lemma PlainToken(word: string, rest: string)
    requires word != [] && ' ' !in word
    ensures NextToken(word + " " + rest) == Token(word, rest)
    ensures NextToken(word) == Token(word, [])
  {
    UptoEnds(word, ' ', rest);
    var s := word + " " + rest;
    assert SkipSpaces(s) == s;
    assert s[|word| + 1..] == rest;
  }

  lemma ChompedEol(path: string, ending: Ending)
    requires Plain(path) && path != []
    ensures Chomped(path + Eol(ending)) == path
  {
    var s := path + Eol(ending);
    var last := path[|path| - 1];
    assert last != '\r' && last != '\n';
    ChompedExactly(s, path);
  }

  lemma RenderedIsGood(e: Entry, ending: Ending)
    requires Writable(e)
    ensures GoodLine(Rendered(e, ending)) && LineEntry(Rendered(e, ending)) == e
  {
    hide NextToken, Chomped;
    SupportedPlain(e.name);
    var line := Rendered(e, ending);
    UptoEnds(line, '\0', []);
    assert line == e.name + " " + (e.path + Eol(ending));
    PlainToken(e.name, e.path + Eol(ending));
    PlainToken(e.path + Eol(ending), []);
    ChompedEol(e.path, ending);
    NothingLeft();
  }

  lemma NothingLeft()
    ensures NextToken([]) == NoToken
  {
  }

  lemma {:induction false} RenderedLines(entries: seq<Entry>, endings: seq<Ending>)
    requires |endings| == |entries| && EndingsFit(endings) && forall i | 0 <= i < |entries| :: Writable(entries[i])
    ensures var lines := Lines(Render(entries, endings));
      && |lines| == |entries| && forall i | 0 <= i < |lines| :: lines[i] == Rendered(entries[i], endings[i])
  {
    hide Rendered, Writable, FirstLine;
    if entries != [] {
      var rest := Render(entries[1..], endings[1..]);
      WritablePlain(entries[0]);
      RenderedLine(entries[0], endings[0], rest);
      var s := Rendered(entries[0], endings[0]) + rest;
      assert s[|Rendered(entries[0], endings[0])|..] == rest;
      RenderedLines(entries[1..], endings[1..]);
    }
  }

  lemma WritablePlain(e: Entry)
    requires Writable(e)
    ensures Plain(e.name) && Plain(e.path)
  {
    SupportedPlain(e.name);
  }

  /** Round trip: one to five entries with different supported names, written with either line
      end and with or without one behind the last, are read back as they are. */
  lemma ConfigRoundTrip(entries: seq<Entry>, endings: seq<Ending>)
    requires |endings| == |entries| && EndingsFit(endings) && 1 <= |entries| <= 5
    requires Distinct(entries) && forall i | 0 <= i < |entries| :: Writable(entries[i])
    ensures ParseFrom(Render(entries, endings), []) == Accepted(entries)
  {
    hide Rendered, GoodLine, LineEntry, ParseFrom, Render;
    var content := Render(entries, endings);
    RenderedLines(entries, endings);
    forall i | 0 <= i < |entries|
      ensures GoodLine(Lines(content)[i]) && LineEntry(Lines(content)[i]) == entries[i]
    {
      RenderedIsGood(entries[i], endings[i]);
    }
    AcceptedExactly(content, entries);
  }

  // ---- the stored paths ----

  /** Row i holds the path, padded with NULs. */
  ghost predicate RowHolds(paths: seq<char>, i: nat, path: string) {
    ROW * i + ROW <= |paths| && |path| <= ROW && '\0' !in path &&
    paths[ROW * i..ROW * i + ROW] == path + seq(ROW - |path|, _ => '\0')
  }

  /** The C string that starts at row i; memory goes on behind the last row. */
  function PathString(memory: seq<char>, i: nat): string
    requires ROW * i <= |memory|
  {
    Upto(memory[ROW * i..], '\0')
  }

  /** A zeroed structure that a file has been read into, and what lies behind it. */
  ghost predicate StoredIn(memory: seq<char>, entries: seq<Entry>) {
    && |entries| <= MAX_IMAGES && MAX_IMAGES * ROW <= |memory|
    && (forall i | 0 <= i < |entries| :: RowHolds(memory, i, entries[i].path))
    && (forall k | ROW * |entries| <= k < MAX_IMAGES * ROW :: memory[k] == '\0')
  }

  /** A NUL follows the characters of path i: in its own row, or at the start of the next one,
      which may be the empty path of another entry, an unused row, or what lies behind. */
  predicate Terminated(entries: seq<Entry>, following: seq<char>, i: nat)
    requires i < |entries| <= MAX_IMAGES
  {
    || |entries[i].path| < ROW
    || (if i + 1 < |entries| then entries[i + 1].path == []
        else i + 1 < MAX_IMAGES || following == [] || following[0] == '\0')
  }

  lemma RowAt(memory: seq<char>, i: nat, path: string, k: nat)
    requires RowHolds(memory, i, path) && k < ROW
    ensures memory[ROW * i + k] == if k < |path| then path[k] else '\0'
  {
    assert memory[ROW * i..ROW * i + ROW][k] == memory[ROW * i + k];
  }

  /** The string at row i, when its path fills the row or not. */
  lemma ShortPathString(memory: seq<char>, i: nat, path: string)
    requires RowHolds(memory, i, path)
    requires |path| < ROW || ROW * (i + 1) == |memory| || memory[ROW * (i + 1)] == '\0'
    ensures PathString(memory, i) == path
  {
    var s := memory[ROW * i..];
    assert s[..ROW] == memory[ROW * i..ROW * i + ROW];
    assert s[..|path|] == s[..ROW][..|path|] == path;
    if |path| < |s| {
      if |path| < ROW {
        RowAt(memory, i, path, |path|);
      }
      assert s[|path|] == '\0';
      assert s == path + ['\0'] + s[|path| + 1..];
      UptoEnds(path, '\0', s[|path| + 1..]);
    } else {
      assert s == path;
      UptoEnds(path, '\0', []);
    }
  }

  lemma LongPathString(memory: seq<char>, i: nat, path: string)
    requires RowHolds(memory, i, path)
    requires |path| == ROW && ROW * (i + 1) < |memory| && memory[ROW * (i + 1)] != '\0'
    ensures PathString(memory, i) != path
  {
    var s := memory[ROW * i..];
    assert s[ROW] == memory[ROW * (i + 1)];
  }

  /** A stored path is read back if and only if a NUL follows it. */
  lemma StoredPathEnds(paths: seq<char>, following: seq<char>, entries: seq<Entry>, i: nat)
    requires |paths| == MAX_IMAGES * ROW && StoredIn(paths + following, entries) && i < |entries|
    ensures PathString(paths + following, i) == entries[i].path <==> Terminated(entries, following, i)
  {
    hide PathString;
    var memory := paths + following;
    var path := entries[i].path;
    assert RowHolds(memory, i, path);
    if i + 1 < |entries| {
      RowAt(memory, i + 1, entries[i + 1].path, 0);
      assert RowHolds(memory, i + 1, entries[i + 1].path);
      if entries[i + 1].path != [] {
        assert entries[i + 1].path[0] in entries[i + 1].path;
      }
    }
    if Terminated(entries, following, i) {
      ShortPathString(memory, i, path);
    } else {
      LongPathString(memory, i, path);
    }
  }

  /** A file read into a zeroed structure: which paths the structure gives back. */
  method ReadFresh(content: string, following: seq<char>) returns (ok: bool, config: ImageConfig)
    ensures ok <==> ParseFrom(content, []).Accepted?
    ensures ok ==> config.HoldsAll(ParseFrom(content, []).entries) && config.paths.Length == MAX_IMAGES * ROW
    ensures ok ==>
      (var entries := ParseFrom(content, []).entries;
       forall i | 0 <= i < |entries| ::
         (PathString(config.paths[..] + following, i) == entries[i].path <==> Terminated(entries, following, i)))
  {
    hide ParseFrom, PathString, Terminated, RowHolds;
    config := new ImageConfig();
    ok := config.Read(content);
    if ok {
      ghost var entries := ParseFrom(content, []).entries;
      ghost var paths := config.paths[..];
      RowsStored(paths, following, entries);
      forall i | 0 <= i < |entries|
        ensures PathString(paths + following, i) == entries[i].path <==> Terminated(entries, following, i)
      {
        StoredPathEnds(paths, following, entries, i);
      }
    }
  }

  lemma RowsStored(paths: seq<char>, following: seq<char>, entries: seq<Entry>)
    requires |paths| == MAX_IMAGES * ROW && |entries| <= MAX_IMAGES
    requires forall i | 0 <= i < |entries| :: RowHolds(paths, i, entries[i].path)
    requires forall k | ROW * |entries| <= k < |paths| :: paths[k] == '\0'
    ensures StoredIn(paths + following, entries)
  {
    forall i | 0 <= i < |entries|
      ensures RowHolds(paths + following, i, entries[i].path)
    {
      assert RowHolds(paths, i, entries[i].path);
      assert (paths + following)[ROW * i..ROW * i + ROW] == paths[ROW * i..ROW * i + ROW];
    }
  }

  // ---- a path of the documented maximum ----

  function LongPath(): (p: string)
    ensures |p| == ROW && Plain(p)
  {
    seq(ROW, _ => 'a')
  }

  function LongPathEntries(): seq<Entry> {
    [Entry("SAIL_HYP", LongPath()), Entry("SAIL_SW1", "b")]
  }

  /** A two-line file whose first path has 128 characters is accepted, and the structure gives
      that path back with the second one behind it. */
  lemma LongPathMisread(memory: seq<char>)
    requires StoredIn(memory, LongPathEntries())
    ensures ParseFrom(Render(LongPathEntries(), [Lf, Lf]), []) == Accepted(LongPathEntries())
    ensures PathString(memory, 0) == LongPath() + "b" != LongPath()
  {
    hide ParseFrom, Render, LongPath;
    var es := LongPathEntries();
    assert Supported()[0] == "SAIL_HYP" && Supported()[1] == "SAIL_SW1";
    assert "SAIL_HYP"[5] != "SAIL_SW1"[5];
    ConfigRoundTrip(es, [Lf, Lf]);
    assert RowHolds(memory, 0, es[0].path) && RowHolds(memory, 1, es[1].path);
    RowAt(memory, 1, "b", 0);
    RowAt(memory, 1, "b", 1);
    var s := memory[ROW * 0..];
    assert s[..ROW] == LongPath();
    assert s == LongPath() + "b" + ['\0'] + s[ROW + 2..];
    UptoEnds(LongPath() + "b", '\0', s[ROW + 2..]);
  }

  /** A supported name followed by a space alone is a line with an empty path. */
  lemma EmptyPathAccepted(name: string)
    requires name in Supported()
    ensures GoodLine(name + " " + "\n") && LineEntry(name + " " + "\n") == Entry(name, [])
  {
    hide NextToken, Chomped;
    SupportedPlain(name);
    var line := name + " " + "\n";
    UptoEnds(line, '\0', []);
    PlainToken(name, "\n");
    PlainToken("\n", []);
    ChompedLf();
    NothingLeft();
  }

  lemma ChompedLf()
    ensures Chomped("\n") == []
  {
  }
}
