/** Compiling a textual blocklist: one name per line out of hosts, plain or adblock notation, read
    through a bounded line buffer however the input is cut into reads. */
module LineCompiler {
  import opened Sequences
  import opened Bytes
  import opened Names
  import opened Blocklist
  import opened Artifact
  import Trie
  import Utf8

  const MAX_LABELS: nat := 127
  const MAX_LINE_BYTES: nat := 8192
  const NEWLINE: byte := 10

  // ---- One line ----

  /** Up to the first white space. */
  function Word(s: string): (r: string)
    ensures r <= s && (|r| < |s| ==> IsSpace(s[|r|]))
    ensures forall i :: 0 <= i < |r| ==> !IsSpace(r[i])
  {
    if s == "" || IsSpace(s[0]) then "" else [s[0]] + Word(s[1..])
  }

  function DropBars(s: string): (r: string)
    ensures |r| <= |s|
  {
    if |s| >= 2 && s[0] == '|' && s[1] == '|' then DropBars(s[2..]) else s
  }

  function DropCarets(s: string): string {
    if s != "" && s[|s| - 1] == '^' then DropCarets(s[..|s| - 1]) else s
  }

  function DropStar(s: string): string {
    if |s| >= 2 && s[0] == '*' && s[1] == DOT then s[2..] else s
  }

  predicate Digits(l: string) {
    l != "" && forall i :: 0 <= i < |l| ==> '0' <= l[i] <= '9'
  }

  /** A name the trie can hold: dotted, within the DNS bounds, no wildcard, no path, not an IPv4
      address. */
  predicate Blockable(name: string) {
    && '*' !in name && DOT in name && '/' !in name
    && |Utf8.Encode(name)| <= MAX_NAME_LEN && |Split(name, DOT)| <= MAX_LABELS
    && exists i :: 0 <= i < |Split(name, DOT)| && !Digits(Split(name, DOT)[i])
  }

  /** The column of the line that names the zone; `sink` recognises the address column of a hosts
      file. */
  function Column(line: string, sink: string -> bool): string {
    var first := Word(line);
    if |first| < |line| && sink(first) then Trim(line[|first| + 1..]) else line
  }

  /** The first word without its inline comment. */
  function Uncommented(s: string): string { Trim(Split(Word(TrimStart(s)), '#')[0]) }

  /** The name inside its notation: bars, carets, comment and leading wildcard dropped. */
  function Unwrapped(entry: string): string {
    DropStar(Uncommented(DropCarets(DropBars(entry))))
  }

  /** The name on one line, if any. */
  function ParseLine(raw: string, sink: string -> bool): Option<string> {
    var line := Trim(raw);
    if line == "" || line[0] == '#' || line[0] == '!' then None
    else
      var name := Unwrapped(Column(line, sink));
      if Blockable(name) then Some(name) else None
  }

  predicate Spaceless(s: string) { forall i :: 0 <= i < |s| ==> !IsSpace(s[i]) }

  lemma {:induction false} FirstPieceIsPrefix(s: string, sep: char)
    ensures Split(s, sep)[0] <= s && sep !in Split(s, sep)[0]
  {
    if s != "" && s[0] != sep { FirstPieceIsPrefix(s[1..], sep); }
  }

  lemma UncommentedIsClean(s: string)
    ensures Spaceless(Uncommented(s)) && '#' !in Uncommented(s)
  {
    var word := Word(TrimStart(s));
    var head := Split(word, '#')[0];
    FirstPieceIsPrefix(word, '#');
    NoSpaceTrim(head);
  }

  lemma StarIsClean(s: string)
    requires Spaceless(s) && '#' !in s
    ensures Spaceless(DropStar(s)) && '#' !in DropStar(s)
  {}

  // ---- Which names are taken, character by character ----

  function Dots(d: string): nat { if d == "" then 0 else (if d[0] == '.' then 1 else 0) + Dots(d[1..]) }

  predicate IsDigit(c: char) { '0' <= c <= '9' }

  /** Digits and single dots between them, as in an address. */
  predicate DottedDigits(d: string) {
    && (forall i :: 0 <= i < |d| ==> IsDigit(d[i]) || d[i] == '.')
    && (forall i :: 0 <= i < |d| - 1 ==> !(d[i] == '.' && d[i + 1] == '.'))
    && (d != "" ==> d[|d| - 1] != '.')
  }

  predicate AddressShaped(d: string) { d != "" && d[0] != '.' && DottedDigits(d) }

  lemma {:induction false} DotsAreCuts(d: string)
    ensures |Split(d, DOT)| == Dots(d) + 1
  {
    if d != "" { DotsAreCuts(d[1..]); }
  }

  lemma DottedDigitsCons(c: char, t: string)
    ensures DottedDigits([c] + t) <==>
            DottedDigits(t) && (IsDigit(c) || (c == '.' && t != "" && t[0] != '.'))
  {
    var d := [c] + t;
    assert d[1..] == t;
    if DottedDigits(d) {
      forall i | 0 <= i < |t| ensures IsDigit(t[i]) || t[i] == '.' { assert d[i + 1] == t[i]; }
      forall i | 0 <= i < |t| - 1 ensures !(t[i] == '.' && t[i + 1] == '.') { assert d[i + 1] == t[i] && d[i + 2] == t[i + 1]; }
      assert t != "" ==> d[1] == t[0] && d[|d| - 1] == t[|t| - 1];
      assert IsDigit(d[0]) || d[0] == '.';
      assert t != "" ==> !(d[0] == '.' && d[0 + 1] == '.');
    }
    if DottedDigits(t) && (IsDigit(c) || (c == '.' && t != "" && t[0] != '.')) {
      forall i | 0 <= i < |d| ensures IsDigit(d[i]) || d[i] == '.' { if i > 0 { assert d[i] == t[i - 1]; } }
      forall i | 0 <= i < |d| - 1 ensures !(d[i] == '.' && d[i + 1] == '.') {
        assert d[i + 1] == t[i];
        if i > 0 { assert d[i] == t[i - 1] && !(t[i - 1] == '.' && t[i - 1 + 1] == '.'); }
      }
    }
  }

  /** All labels are digits, the first possibly empty. */
  ghost predicate DigitLabels(ls: seq<string>) {
    ls != [] && (ls[0] == "" || Digits(ls[0])) && forall i :: 1 <= i < |ls| ==> Digits(ls[i])
  }

  lemma DigitsCons(c: char, l: string)
    ensures Digits([c] + l) <==> IsDigit(c) && (l == "" || Digits(l))
  {
    var d := [c] + l;
    if Digits(d) {
      assert d[0] == c;
      forall i | 0 <= i < |l| ensures '0' <= l[i] <= '9' { assert d[i + 1] == l[i]; }
    }
  }

  lemma DigitLabelsCons(c: char, ls: seq<string>)
    requires ls != []
    ensures DigitLabels([[c] + ls[0]] + ls[1..]) <==> IsDigit(c) && DigitLabels(ls)
  {
    var all := [[c] + ls[0]] + ls[1..];
    DigitsCons(c, ls[0]);
    assert forall i :: 1 <= i < |ls| ==> all[i] == ls[i];
  }

  lemma DigitLabelsDot(ls: seq<string>)
    requires ls != []
    ensures DigitLabels([""] + ls) <==> DigitLabels(ls) && ls[0] != ""
  {
    var all := [""] + ls;
    if DigitLabels(all) {
      forall i | 0 <= i < |ls| ensures Digits(ls[i]) { assert all[i + 1] == ls[i]; }
    }
  }

  lemma {:induction false} DigitLabelsMean(d: string)
    ensures DigitLabels(Split(d, DOT)) <==> DottedDigits(d)
    ensures Split(d, DOT)[0] == "" <==> d == "" || d[0] == '.'
  {
    if d != "" {
      var t, ls := d[1..], Split(d[1..], DOT);
      DigitLabelsMean(t);
      assert d == [d[0]] + t;
      DottedDigitsCons(d[0], t);
      if d[0] == DOT {
        assert Split(d, DOT) == [""] + ls;
        DigitLabelsDot(ls);
      } else {
        assert Split(d, DOT) == [[d[0]] + ls[0]] + ls[1..];
        DigitLabelsCons(d[0], ls);
      }
    }
  }

  /** A blockable name, spelled out: it has a dot, no wildcard and no slash, at most 253 bytes and 126 dots,
      and is not digits and dots in the shape of an address. */
  lemma BlockableMeans(d: string)
    ensures Blockable(d) <==>
            && '.' in d && '*' !in d && '/' !in d && |Utf8.Encode(d)| <= 253 && Dots(d) <= 126 && !AddressShaped(d)
  {
    DotsAreCuts(d);
    DigitLabelsMean(d);
    var ls := Split(d, DOT);
    if AddressShaped(d) {
      forall i | 0 <= i < |ls| ensures Digits(ls[i]) {}
    }
  }

  /** What a line yields has no white space and no comment sign, whatever the notation. */
  lemma ParsedIsClean(raw: string, sink: string -> bool)
    requires ParseLine(raw, sink).Some?
    ensures var d := ParseLine(raw, sink).value;
            && Blockable(d) && Spaceless(d) && '#' !in d && '*' !in d && '/' !in d && '.' in d
            && |Utf8.Encode(d)| <= 253 && Dots(d) <= 126 && !AddressShaped(d)
  {
    BlockableMeans(ParseLine(raw, sink).value);
    var inner := DropCarets(DropBars(Column(Trim(raw), sink)));
    UncommentedIsClean(inner);
    StarIsClean(Uncommented(inner));
  }

  // ---- The notations of one name ----

  /** A name no notation's own marks can be confused with. */
  predicate Plain(d: string) {
    && |d| >= 2 && Spaceless(d) && '#' !in d && '*' !in d
    && d[0] != '!' && d[|d| - 1] != '^' && !(d[0] == '|' && d[1] == '|')
  }

  lemma {:induction false} WordOf(a: string, rest: string)
    requires Spaceless(a) && (rest == "" || IsSpace(rest[0]))
    ensures Word(a + rest) == a
  {
    if a == "" {
      assert a + rest == rest;
    } else {
      WordOf(a[1..], rest);
      assert (a + rest)[1..] == a[1..] + rest;
    }
  }

  lemma CleanIsUncommented(s: string)
    requires Spaceless(s) && '#' !in s
    ensures Uncommented(s) == s
  {
    NoSpaceTrim(s);
    WordOf(s, "");
    assert s + "" == s && TrimStart(s) == s;
    SplitPrepend(s, "", '#');
    assert Split(s, '#')[0] == s;
  }

  lemma BarsDropped(s: string)
    requires |s| >= 2 && !(s[0] == '|' && s[1] == '|')
    ensures DropBars(s) == s && DropBars(['|', '|'] + s) == s
  {
    assert (['|', '|'] + s)[2..] == s;
  }

  lemma CaretsDropped(s: string)
    requires s != "" && s[|s| - 1] != '^'
    ensures DropCarets(s) == s && DropCarets(s + ['^']) == s
  {
    assert (s + ['^'])[..|s|] == s;
  }

  /** The name, with or without the wildcard that the trie subsumes. */
  function Starred(d: string, star: bool): string { if star then ['*', DOT] + d else d }

  /** The body with or without the adblock marks. */
  function Marked(s: string, bars: bool, caret: bool): string {
    (if bars then ['|', '|'] else []) + s + (if caret then ['^'] else [])
  }

  lemma MarksDropped(s: string, bars: bool, caret: bool)
    requires |s| >= 2 && !(s[0] == '|' && s[1] == '|') && s[|s| - 1] != '^'
    ensures DropCarets(DropBars(Marked(s, bars, caret))) == s
  {
    var tail := s + (if caret then ['^'] else []);
    assert tail[0] == s[0] && tail[1] == s[1];
    BarsDropped(tail);
    assert Marked(s, bars, caret) == if bars then ['|', '|'] + tail else tail;
    CaretsDropped(s);
  }

  /** Any mix of the marks around a plain name unwraps to the name. */
  lemma MarkedUnwraps(d: string, bars: bool, star: bool, caret: bool)
    requires Plain(d)
    ensures Unwrapped(Marked(Starred(d, star), bars, caret)) == d
  {
    StarredIsPlain(d, star);
    MarksDropped(Starred(d, star), bars, caret);
    CleanIsUncommented(Starred(d, star));
  }

  lemma StarredIsPlain(d: string, star: bool)
    requires Plain(d)
    ensures var s := Starred(d, star);
            && |s| >= 2 && !(s[0] == '|' && s[1] == '|') && s[|s| - 1] != '^'
            && Spaceless(s) && '#' !in s && DropStar(s) == d
  {
    if star { assert (['*', DOT] + d)[2..] == d; }
  }

  ghost predicate Blank(s: string) { forall i :: 0 <= i < |s| ==> IsSpace(s[i]) }

  lemma {:induction false} TrimStartPads(lead: string, s: string)
    requires Blank(lead) && (s == "" || !IsSpace(s[0]))
    ensures TrimStart(lead + s) == s
  {
    if lead == "" {
      assert lead + s == s;
    } else {
      var t := lead + s;
      assert t[0] == lead[0] && IsSpace(lead[0]);
      assert t[1..] == lead[1..] + s;
      TrimStartPads(lead[1..], s);
    }
  }

  lemma {:induction false} TrimEndPads(s: string, trail: string)
    requires Blank(trail) && (s == "" || !IsSpace(s[|s| - 1]))
    ensures TrimEnd(s + trail) == s
  {
    if trail == "" {
      assert s + trail == s;
    } else {
      TrimEndPads(s, trail[..|trail| - 1]);
      assert (s + trail)[..|s + trail| - 1] == s + trail[..|trail| - 1];
    }
  }

  lemma TrimPads(lead: string, s: string, trail: string)
    requires Blank(lead) && Blank(trail) && s != "" && !IsSpace(s[0]) && !IsSpace(s[|s| - 1])
    ensures Trim(lead + s + trail) == s
  {
    assert lead + s + trail == lead + (s + trail) && (s + trail)[0] == s[0];
    TrimStartPads(lead, s + trail);
    TrimEndPads(s, trail);
  }

  lemma MarkedIsSpaceless(d: string, bars: bool, star: bool, caret: bool)
    requires Plain(d)
    ensures var entry := Marked(Starred(d, star), bars, caret);
            entry != "" && Spaceless(entry) && entry[0] != '#' && entry[0] != '!'
  {}

  lemma OneColumn(line: string, sink: string -> bool)
    requires Spaceless(line)
    ensures Column(line, sink) == line
  {
    WordOf(line, "");
    assert line + "" == line;
  }

  lemma SinkColumn(address: string, gap: string, entry: string, sink: string -> bool)
    requires Spaceless(address) && sink(address)
    requires gap != "" && Blank(gap) && entry != "" && Spaceless(entry)
    ensures Column(address + gap + entry, sink) == entry
  {
    var line, rest := address + gap + entry, gap[1..] + entry;
    assert line == address + (gap + entry);
    assert (gap + entry)[0] == gap[0] && IsSpace(gap[0]);
    WordOf(address, gap + entry);
    assert line[|address| + 1..] == rest;
    GapDropped(gap[1..], entry);
  }

  lemma GapDropped(gap: string, entry: string)
    requires Blank(gap) && entry != "" && Spaceless(entry)
    ensures Trim(gap + entry) == entry
  {
    TrimStartPads(gap, entry);
    TrimEndPads(entry, "");
    assert entry + "" == entry;
  }

  /** Every notation of a plain blockable name (bare, adblock, wildcard, indented) compiles to that name. */
  lemma NotationsAgree(d: string, bars: bool, star: bool, caret: bool, lead: string, trail: string, sink: string -> bool)
    requires Blockable(d) && Plain(d) && Blank(lead) && Blank(trail)
    ensures ParseLine(lead + Marked(Starred(d, star), bars, caret) + trail, sink) == Some(d)
  {
    var entry := Marked(Starred(d, star), bars, caret);
    MarkedIsSpaceless(d, bars, star, caret);
    TrimPads(lead, entry, trail);
    OneColumn(entry, sink);
    MarkedUnwraps(d, bars, star, caret);
  }

  /** So does every hosts-file line that sinks it. */
  lemma HostsLineAgrees(d: string, address: string, gap: string, bars: bool, star: bool, caret: bool,
                        lead: string, trail: string, sink: string -> bool)
    requires Blockable(d) && Plain(d) && Blank(lead) && Blank(trail) && Blank(gap) && gap != ""
    requires address != "" && Spaceless(address) && sink(address) && address[0] != '#' && address[0] != '!'
    ensures ParseLine(lead + (address + gap + Marked(Starred(d, star), bars, caret)) + trail, sink) == Some(d)
  {
    var entry := Marked(Starred(d, star), bars, caret);
    MarkedIsSpaceless(d, bars, star, caret);
    var line := address + gap + entry;
    assert line[0] == address[0] && line[|line| - 1] == entry[|entry| - 1];
    TrimPads(lead, line, trail);
    SinkColumn(address, gap, entry, sink);
    MarkedUnwraps(d, bars, star, caret);
  }

  /** Text after the entry is dropped, but a caret in front of it is kept: the adblock mark comes off
      only at the end of the line. */
  lemma CaretBeforeComment(d: string, caret: bool, tail: string)
    requires Plain(d) && tail != "" && IsSpace(tail[0]) && tail[|tail| - 1] != '^'
    ensures Unwrapped(Marked(d, true, caret) + tail) == Marked(d, false, caret)
  {
    var word := Marked(d, false, caret);
    var rest := word + tail;
    assert word[0] == d[0] && word[1] == d[1];
    assert rest[0] == d[0] && rest[1] == d[1] && rest[|rest| - 1] == tail[|tail| - 1];
    BarsDropped(rest);
    assert Marked(d, true, caret) + tail == ['|', '|'] + rest;
    CaretsDropped(rest);
    WordIsClean(d, caret);
    FirstWord(word, tail);
  }

  lemma WordIsClean(d: string, caret: bool)
    requires Spaceless(d) && '#' !in d
    ensures Spaceless(Marked(d, false, caret)) && '#' !in Marked(d, false, caret)
  {}

  lemma FirstWord(word: string, tail: string)
    requires word != "" && Spaceless(word) && '#' !in word && tail != "" && IsSpace(tail[0])
    ensures Uncommented(word + tail) == word
  {
    WordOf(word, tail);
    assert TrimStart(word + tail) == word + tail;
    SplitPrepend(word, "", '#');
    assert word + "" == word && Split(word, '#')[0] == word;
    NoSpaceTrim(word);
  }

  /** A plain name in any notation is taken exactly when it has a dot, no slash, at most 253 bytes and 126
      dots, and is not shaped like an address; else the line yields nothing. */
  lemma PlainLineExactly(d: string, bars: bool, star: bool, caret: bool, lead: string, trail: string, sink: string -> bool)
    requires Plain(d) && Blank(lead) && Blank(trail)
    ensures ParseLine(lead + Marked(Starred(d, star), bars, caret) + trail, sink) ==
            if '.' in d && '/' !in d && |Utf8.Encode(d)| <= 253 && Dots(d) <= 126 && !AddressShaped(d) then Some(d) else None
  {
    var entry := Marked(Starred(d, star), bars, caret);
    MarkedIsSpaceless(d, bars, star, caret);
    TrimPads(lead, entry, trail);
    OneColumn(entry, sink);
    MarkedUnwraps(d, bars, star, caret);
    BlockableMeans(d);
  }

  /** A line that starts with a comment mark, after any indentation, yields nothing. */
  lemma CommentLine(lead: string, mark: char, text: string, sink: string -> bool)
    requires Blank(lead) && (mark == '#' || mark == '!') && (text == "" || !IsSpace(text[|text| - 1]))
    ensures ParseLine(lead + ([mark] + text), sink) == None
  {
    var line := [mark] + text;
    TrimPads(lead, line, "");
    assert lead + line + "" == lead + line;
  }

  lemma WholeLine(line: string)
    requires line != "" && !IsSpace(line[0]) && !IsSpace(line[|line| - 1])
    ensures Trim(line) == line
  {
    TrimPads("", line, "");
    assert "" + line + "" == line;
  }

  lemma TailUnwraps(d: string, tail: string)
    requires Plain(d) && tail != "" && IsSpace(tail[0]) && tail[|tail| - 1] != '^'
    ensures Unwrapped(d + tail) == d
  {
    var line := d + tail;
    assert line[0] == d[0] && line[1] == d[1] && line[|line| - 1] == tail[|tail| - 1];
    BarsDropped(line);
    CaretsDropped(line);
    FirstWord(d, tail);
  }

  lemma OwnColumn(d: string, tail: string, sink: string -> bool)
    requires Spaceless(d) && tail != "" && IsSpace(tail[0]) && !sink(d)
    ensures Column(d + tail, sink) == d + tail
  {
    WordOf(d, tail);
  }

  /** Text after the first word is dropped, unless the word is the address column of a hosts file. */
  lemma TrailingTextDropped(d: string, tail: string, sink: string -> bool)
    requires Blockable(d) && Plain(d) && !sink(d)
    requires tail != "" && IsSpace(tail[0]) && tail[|tail| - 1] != '^' && !IsSpace(tail[|tail| - 1])
    ensures ParseLine(d + tail, sink) == Some(d)
  {
    var line := d + tail;
    assert line[0] == d[0] && d[0] in d && line[|line| - 1] == tail[|tail| - 1];
    WholeLine(line);
    OwnColumn(d, tail, sink);
    TailUnwraps(d, tail);
  }

  lemma CommentUnwraps(d: string, comment: string)
    requires Plain(d) && Spaceless(comment) && (comment == "" || comment[|comment| - 1] != '^')
    ensures Unwrapped(d + ['#'] + comment) == d
  {
    var line := d + ['#'] + comment;
    assert line[0] == d[0] && line[1] == d[1] && line[|line| - 1] == if comment == "" then '#' else comment[|comment| - 1];
    BarsDropped(line);
    CaretsDropped(line);
    CutAtComment(d, comment);
  }

  lemma CutAtComment(d: string, comment: string)
    requires d != "" && Spaceless(d) && '#' !in d && Spaceless(comment)
    ensures Uncommented(d + ['#'] + comment) == d
  {
    var line := d + ['#'] + comment;
    assert Spaceless(line);
    WordOf(line, "");
    assert line + "" == line && TrimStart(line) == line;
    SplitFirst(d, comment, '#');
    NoSpaceTrim(d);
  }

  /** A comment sign inside the word ends it. */
  lemma InlineComment(d: string, comment: string, sink: string -> bool)
    requires Blockable(d) && Plain(d) && Spaceless(comment) && (comment == "" || comment[|comment| - 1] != '^')
    ensures ParseLine(d + ['#'] + comment, sink) == Some(d)
  {
    var line := d + ['#'] + comment;
    assert Spaceless(line) && line[0] == d[0] && d[0] in d;
    WholeLine(line);
    OneColumn(line, sink);
    CommentUnwraps(d, comment);
  }

  function Bars(n: nat): string { if n == 0 then "" else ['|', '|'] + Bars(n - 1) }

  function Carets(n: nat): string { if n == 0 then "" else Carets(n - 1) + ['^'] }

  lemma {:induction false} AllBarsDropped(n: nat, s: string)
    requires |s| >= 2 && !(s[0] == '|' && s[1] == '|')
    ensures DropBars(Bars(n) + s) == s
  {
    if n == 0 {
      assert Bars(n) + s == s;
    } else {
      var line := Bars(n) + s;
      assert line == ['|', '|'] + (Bars(n - 1) + s);
      assert line[2..] == Bars(n - 1) + s;
      AllBarsDropped(n - 1, s);
    }
  }

  lemma CaretDropped(t: string)
    ensures DropCarets(t + ['^']) == DropCarets(t)
  {
    assert (t + ['^'])[..|t|] == t;
  }

  lemma {:induction false} AllCaretsDropped(n: nat, s: string)
    requires s != "" && s[|s| - 1] != '^'
    ensures DropCarets(s + Carets(n)) == s
  {
    if n == 0 {
      assert s + Carets(n) == s;
    } else {
      AllCaretsDropped(n - 1, s);
      CaretDropped(s + Carets(n - 1));
      assert s + Carets(n) == s + Carets(n - 1) + ['^'];
    }
  }

  lemma {:induction false} MarksSpaceless(bars: nat, carets: nat)
    ensures Spaceless(Bars(bars)) && Spaceless(Carets(carets)) && (bars > 0 ==> Bars(bars)[0] == '|')
    decreases bars + carets
  {
    if bars > 0 { MarksSpaceless(bars - 1, 0); }
    if carets > 0 { MarksSpaceless(0, carets - 1); }
  }

  lemma RepeatedUnwraps(d: string, bars: nat, carets: nat)
    requires Plain(d)
    ensures Unwrapped(Bars(bars) + (d + Carets(carets))) == d
  {
    var tail := d + Carets(carets);
    assert tail[0] == d[0] && tail[1] == d[1];
    AllBarsDropped(bars, tail);
    AllCaretsDropped(carets, d);
    CleanIsUncommented(d);
  }

  /** The adblock marks come off however often they are repeated. */
  lemma RepeatedMarks(d: string, bars: nat, carets: nat, sink: string -> bool)
    requires Blockable(d) && Plain(d)
    ensures ParseLine(Bars(bars) + (d + Carets(carets)), sink) == Some(d)
  {
    var line := Bars(bars) + (d + Carets(carets));
    MarksSpaceless(bars, carets);
    assert Spaceless(line) && (line[0] == d[0] || line[0] == '|') && d[0] in d;
    WholeLine(line);
    OneColumn(line, sink);
    RepeatedUnwraps(d, bars, carets);
  }

  /** A leading wildcard label comes off, once; any other wildcard refuses the line. */
  lemma WildcardsRefused(w: string, sink: string -> bool)
    requires |w| >= 2 && Spaceless(w) && '#' !in w && w[0] != '!' && w[|w| - 1] != '^' && !(w[0] == '|' && w[1] == '|')
    requires '*' in (if w[0] == '*' && w[1] == '.' then w[2..] else w)
    ensures ParseLine(w, sink) == None
  {
    assert w[0] in w;
    WholeLine(w);
    OneColumn(w, sink);
    BarsDropped(w);
    CaretsDropped(w);
    CleanIsUncommented(w);
  }

  // ---- Whole inputs ----

  /** The name a line of bytes carries, without its newline; text that is not UTF-8 carries none. */
  function LineName(line: seq<byte>, sink: string -> bool): Option<string> {
    var text := Utf8.Decode(line);
    if text.None? then None else ParseLine(text.value, sink)
  }

  /** What one line adds to the list; an over-long line adds nothing. */
  function LineEntries(line: seq<byte>, sink: string -> bool): seq<Entry> {
    if |line| > MAX_LINE_BYTES || LineName(line, sink).None? then []
    else [Entry(LineName(line, sink).value, {})]
  }

  function Reader(sink: string -> bool): seq<byte> -> seq<Entry> {
    line => LineEntries(line, sink)
  }

  /** What the lines add, in order. */
  function ReadLines(f: seq<byte> -> seq<Entry>, lines: seq<seq<byte>>): seq<Entry> {
    if lines == [] then [] else ReadLines(f, lines[..|lines| - 1]) + f(lines[|lines| - 1])
  }

  /** The list a byte string spells. */
  function Entries(bytes: seq<byte>, sink: string -> bool): seq<Entry> {
    ReadLines(Reader(sink), Split(bytes, NEWLINE))
  }

  /** The bytes delivered before the first empty or failed read. */
  function Delivered(chunks: seq<Option<seq<byte>>>): seq<byte> {
    if chunks == [] || chunks[0].None? || chunks[0].value == [] then []
    else chunks[0].value + Delivered(chunks[1..])
  }

  /** A text of one line, 8192 bytes or less, is read as that line; a longer one is skipped whole. */
  lemma OneLineText(text: string, sink: string -> bool)
    requires 10 !in Utf8.Encode(text)
    ensures Entries(Utf8.Encode(text), sink) ==
            if |Utf8.Encode(text)| <= 8192 && ParseLine(text, sink).Some? then [Entry(ParseLine(text, sink).value, {})] else []
  {
    var bytes := Utf8.Encode(text);
    Utf8.DecodeEncode(text);
    SplitPrepend(bytes, [], NEWLINE);
    assert bytes + [] == bytes && Split(bytes, NEWLINE) == [bytes];
    var lines := [bytes];
    assert lines[..0] == [] && ReadLines(Reader(sink), lines) == ReadLines(Reader(sink), lines[..0]) + Reader(sink)(bytes);
  }

  function Concat(parts: seq<seq<byte>>): seq<byte> { if parts == [] then [] else parts[0] + Concat(parts[1..]) }

  function Reads(parts: seq<seq<byte>>): (r: seq<Option<seq<byte>>>)
    ensures |r| == |parts|
  {
    if parts == [] then [] else [Some(parts[0])] + Reads(parts[1..])
  }

  /** Reading takes every part up to the first empty or failed read, and nothing after it. */
  lemma {:induction false} ReadsStop(parts: seq<seq<byte>>, stop: Option<seq<byte>>, rest: seq<Option<seq<byte>>>)
    requires (forall i :: 0 <= i < |parts| ==> parts[i] != []) && (stop.None? || stop.value == [])
    ensures Delivered(Reads(parts) + [stop] + rest) == Concat(parts) == Delivered(Reads(parts))
  {
    var all := Reads(parts) + [stop] + rest;
    if parts == [] {
      assert all[0] == stop;
    } else {
      ReadsStop(parts[1..], stop, rest);
      assert all[0] == Some(parts[0]) && all[1..] == Reads(parts[1..]) + [stop] + rest;
      assert Reads(parts)[1..] == Reads(parts[1..]);
    }
  }

  /** Extend the last piece. */
  function ExtendLast<T>(p: seq<seq<T>>, b: T): seq<seq<T>>
    requires p != []
  {
    p[..|p| - 1] + [p[|p| - 1] + [b]]
  }

  lemma ExtendLastCons<T>(x: seq<T>, p: seq<seq<T>>, b: T)
    requires p != []
    ensures ExtendLast([x] + p, b) == [x] + ExtendLast(p, b)
  {}

  lemma ExtendLastHead<T>(a: T, p: seq<seq<T>>, b: T)
    requires p != []
    ensures ExtendLast([[a] + p[0]] + p[1..], b) == [[a] + ExtendLast(p, b)[0]] + ExtendLast(p, b)[1..]
  {
    if |p| == 1 {
      assert [a] + (p[0] + [b]) == [a] + p[0] + [b];
    } else {
      assert ExtendLast(p, b) == [p[0]] + ExtendLast(p[1..], b);
      ExtendLastCons([a] + p[0], p[1..], b);
    }
  }

  lemma {:induction false} SplitSnocInside<T>(s: seq<T>, b: T, sep: T)
    requires b != sep
    ensures Split(s + [b], sep) == ExtendLast(Split(s, sep), b)
  {
    if s == [] {
      SplitPrepend([b], s, sep);
      assert [b] + s == s + [b] == [b];
    } else {
      SplitSnocInside(s[1..], b, sep);
      assert (s + [b])[1..] == s[1..] + [b] && (s + [b])[0] == s[0];
      if s[0] == sep {
        ExtendLastCons([], Split(s[1..], sep), b);
      } else {
        ExtendLastHead(s[0], Split(s[1..], sep), b);
      }
    }
  }

  lemma SplitSnoc<T>(s: seq<T>, b: T, sep: T)
    ensures var p := Split(s, sep);
            Split(s + [b], sep) == if b == sep then p + [[]] else ExtendLast(p, b)
  {
    if b == sep {
      SplitConcat(s, [], sep);
      assert s + [sep] + [] == s + [b];
    } else {
      SplitSnocInside(s, b, sep);
    }
  }

  /** The trie after one more line. */
  function AfterLine(t: Node, line: seq<byte>, sink: string -> bool): Node {
    var name := LineName(line, sink);
    if |line| > MAX_LINE_BYTES || name.None? then t else InsertName(t, name.value, {})
  }

  /** `spec` gives the trie of the lines so far: each line is loaded onto those before it. */
  ghost predicate LoadsLines(spec: seq<seq<byte>> -> Node, sink: string -> bool) {
    forall before, line :: spec(before + [line]) == AfterLine(spec(before), line, sink)
  }

  ghost function LinesTrie(sink: string -> bool): seq<seq<byte>> -> Node {
    lines => Load(ReadLines(Reader(sink), lines))
  }

  lemma ReadOneLine(f: seq<byte> -> seq<Entry>, before: seq<seq<byte>>, line: seq<byte>)
    ensures ReadLines(f, before + [line]) == ReadLines(f, before) + f(line)
  {
    assert (before + [line])[..|before|] == before;
  }

  lemma LoadOneMore(entries: seq<Entry>, domain: string)
    ensures Load(entries + [Entry(domain, {})]) == InsertName(Load(entries), domain, {})
  {
    assert (entries + [Entry(domain, {})])[..|entries|] == entries;
  }

  lemma LinesTrieLoads(sink: string -> bool)
    ensures LoadsLines(LinesTrie(sink), sink)
  {
    var spec := LinesTrie(sink);
    forall before, line ensures spec(before + [line]) == AfterLine(spec(before), line, sink) {
      ReadOneLine(Reader(sink), before, line);
      var loaded := ReadLines(Reader(sink), before);
      assert loaded + [] == loaded;
      if LineEntries(line, sink) != [] { LoadOneMore(loaded, LineName(line, sink).value); }
    }
  }

  /** After some bytes: the complete lines are loaded, and the buffer holds the line in progress unless
      it is over-long. */
  ghost predicate Progress(spec: seq<seq<byte>> -> Node, done: seq<byte>, root: Node, line: seq<byte>, skipping: bool) {
    ProgressOn(spec, Split(done, NEWLINE), root, line, skipping)
  }

  ghost predicate ProgressOn(spec: seq<seq<byte>> -> Node, pieces: seq<seq<byte>>, root: Node, line: seq<byte>, skipping: bool)
    requires pieces != []
  {
    var n := |pieces| - 1;
    && root == spec(pieces[..n])
    && |line| <= MAX_LINE_BYTES
    && (skipping <==> |pieces[n]| > MAX_LINE_BYTES)
    && line == if skipping then [] else pieces[n]
  }

  lemma LastPiece(spec: seq<seq<byte>> -> Node, sink: string -> bool, pieces: seq<seq<byte>>)
    requires LoadsLines(spec, sink) && pieces != []
    ensures LineLoaded(spec, sink, pieces)
  {
    var front, last := pieces[..|pieces| - 1], pieces[|pieces| - 1];
    assert front + [last] == pieces;
    assert spec(front + [last]) == AfterLine(spec(front), last, sink);
  }

  ghost predicate LineLoaded(spec: seq<seq<byte>> -> Node, sink: string -> bool, pieces: seq<seq<byte>>)
    requires pieces != []
  {
    spec(pieces) == AfterLine(spec(pieces[..|pieces| - 1]), pieces[|pieces| - 1], sink)
  }

  lemma OverlongLine(t: Node, line: seq<byte>, sink: string -> bool)
    requires |line| > MAX_LINE_BYTES
    ensures AfterLine(t, line, sink) == t
  {}

  lemma NewlineProgress(spec: seq<seq<byte>> -> Node, done: seq<byte>, root: Node)
    requires root == spec(Split(done, NEWLINE))
    ensures Progress(spec, done + [NEWLINE], root, [], false)
  {
    SplitSnoc(done, NEWLINE, NEWLINE);
    var pieces := Split(done, NEWLINE);
    assert (pieces + [[]])[..|pieces|] == pieces;
  }

  /** What ending the line in progress must do to the trie. */
  lemma LineStep(spec: seq<seq<byte>> -> Node, sink: string -> bool, done: seq<byte>, root: Node, line: seq<byte>, skipping: bool)
    requires LineLoaded(spec, sink, Split(done, NEWLINE)) && Progress(spec, done, root, line, skipping)
    ensures spec(Split(done, NEWLINE)) == if skipping then root else AfterLine(root, line, sink)
  {
    var pieces := Split(done, NEWLINE);
    if skipping { OverlongLine(root, pieces[|pieces| - 1], sink); }
    LineInProgress(spec, done, root, line, skipping);
  }

  lemma LineInProgress(spec: seq<seq<byte>> -> Node, done: seq<byte>, root: Node, line: seq<byte>, skipping: bool)
    requires Progress(spec, done, root, line, skipping)
    ensures var pieces := Split(done, NEWLINE);
            root == spec(pieces[..|pieces| - 1]) && (!skipping ==> line == pieces[|pieces| - 1])
  {}

  lemma ProgressExtends(spec: seq<seq<byte>> -> Node, pieces: seq<seq<byte>>, root: Node, line: seq<byte>, skipping: bool, b: byte)
    requires pieces != [] && ProgressOn(spec, pieces, root, line, skipping)
    ensures var full := skipping || |line| >= MAX_LINE_BYTES;
            ProgressOn(spec, ExtendLast(pieces, b), root, if full then [] else line + [b], full)
  {
    var n := |pieces| - 1;
    assert ExtendLast(pieces, b)[..n] == pieces[..n] && ExtendLast(pieces, b)[n] == pieces[n] + [b];
  }

  lemma ProgressByte(spec: seq<seq<byte>> -> Node, done: seq<byte>, root: Node, line: seq<byte>, skipping: bool, b: byte)
    requires Progress(spec, done, root, line, skipping) && b != NEWLINE
    ensures var full := skipping || |line| >= MAX_LINE_BYTES;
            Progress(spec, done + [b], root, if full then [] else line + [b], full)
  {
    SplitSnoc(done, b, NEWLINE);
    ProgressExtends(spec, Split(done, NEWLINE), root, line, skipping, b);
  }

  /** Load the name on one complete line. */
  method FeedLine(line: seq<byte>, matcher: Matcher, sink: string -> bool)
    requires matcher.Valid() && |line| <= MAX_LINE_BYTES
    modifies matcher`root
    ensures matcher.Valid() && matcher.root == AfterLine(old(matcher.root), line, sink)
  {
    var text := Utf8.Decode(line);
    if text.Some? {
      var name := ParseLine(text.value, sink);
      if name.Some? { matcher.Insert(name.value); }
    }
  }

  method FeedLineOf(line: seq<byte>, matcher: Matcher, sink: string -> bool,
                    ghost spec: seq<seq<byte>> -> Node, ghost done: seq<byte>)
    requires LoadsLines(spec, sink) && matcher.Valid() && Progress(spec, done, matcher.root, line, false)
    modifies matcher`root
    ensures matcher.Valid() && matcher.root == spec(Split(done, NEWLINE))
  {
    LastPiece(spec, sink, Split(done, NEWLINE));
    LineStep(spec, sink, done, matcher.root, line, false);
    FeedLine(line, matcher, sink);
  }

  /** The newline: the buffered line, unless it was over-long. */
  method EndLine(line: seq<byte>, skipping: bool, matcher: Matcher, sink: string -> bool,
                 ghost spec: seq<seq<byte>> -> Node, ghost done: seq<byte>)
    requires LoadsLines(spec, sink) && matcher.Valid() && Progress(spec, done, matcher.root, line, skipping)
    modifies matcher`root
    ensures matcher.Valid() && Progress(spec, done + [NEWLINE], matcher.root, [], false)
  {
    if skipping {
      LastPiece(spec, sink, Split(done, NEWLINE));
      LineStep(spec, sink, done, matcher.root, line, skipping);
    } else {
      FeedLineOf(line, matcher, sink, spec, done);
    }
    NewlineProgress(spec, done, matcher.root);
  }

  /** One byte through the line buffer, which never grows past its cap. */
  method FeedByte(b: byte, line: seq<byte>, skipping: bool, matcher: Matcher, sink: string -> bool,
                  ghost spec: seq<seq<byte>> -> Node, ghost done: seq<byte>)
    returns (buffered: seq<byte>, dropping: bool)
    requires LoadsLines(spec, sink) && matcher.Valid() && Progress(spec, done, matcher.root, line, skipping)
    modifies matcher`root
    ensures matcher.Valid() && Progress(spec, done + [b], matcher.root, buffered, dropping)
    ensures |buffered| <= MAX_LINE_BYTES
  {
    if b == NEWLINE {
      EndLine(line, skipping, matcher, sink, spec, done);
      return [], false;
    }
    ProgressByte(spec, done, matcher.root, line, skipping, b);
    if skipping { return line, skipping; }
    if |line| < MAX_LINE_BYTES { return line + [b], false; }
    return [], true;
  }

  /** One read's bytes. */
  method FeedChunk(chunk: seq<byte>, line: seq<byte>, skipping: bool, matcher: Matcher, sink: string -> bool,
                   ghost spec: seq<seq<byte>> -> Node, ghost done: seq<byte>)
    returns (buffered: seq<byte>, dropping: bool)
    requires LoadsLines(spec, sink) && matcher.Valid() && Progress(spec, done, matcher.root, line, skipping)
    modifies matcher`root
    ensures matcher.Valid() && Progress(spec, done + chunk, matcher.root, buffered, dropping)
  {
    buffered, dropping := line, skipping;
    ghost var sofar := done;
    for i := 0 to |chunk|
      invariant Fed(done, chunk, i, sofar)
      invariant matcher.Valid() && Progress(spec, sofar, matcher.root, buffered, dropping)
    {
      buffered, dropping := FeedByte(chunk[i], buffered, dropping, matcher, sink, spec, sofar);
      FedMore(done, chunk, i, sofar);
      sofar := sofar + [chunk[i]];
    }
    assert chunk[..|chunk|] == chunk;
  }

  ghost predicate Fed(done: seq<byte>, chunk: seq<byte>, i: nat, sofar: seq<byte>) {
    i <= |chunk| && sofar == done + chunk[..i]
  }

  lemma FedMore(done: seq<byte>, chunk: seq<byte>, i: nat, sofar: seq<byte>)
    requires i < |chunk| && Fed(done, chunk, i, sofar)
    ensures Fed(done, chunk, i + 1, sofar + [chunk[i]])
  {
    assert chunk[..i + 1] == chunk[..i] + [chunk[i]];
  }

  /** The bytes so far, then the rest of what the reads deliver. */
  ghost predicate Delivers(done: seq<byte>, chunks: seq<Option<seq<byte>>>, whole: seq<byte>) {
    done + Delivered(chunks) == whole
  }

  lemma DeliversMore(done: seq<byte>, chunks: seq<Option<seq<byte>>>, whole: seq<byte>)
    requires chunks != [] && chunks[0].Some? && chunks[0].value != [] && Delivers(done, chunks, whole)
    ensures Delivers(done + chunks[0].value, chunks[1..], whole)
  {
    assert done + (chunks[0].value + Delivered(chunks[1..])) == done + chunks[0].value + Delivered(chunks[1..]);
  }

  /** Every read up to the first empty or failed one. */
  method FeedAll(chunks: seq<Option<seq<byte>>>, matcher: Matcher, sink: string -> bool, ghost spec: seq<seq<byte>> -> Node)
    returns (line: seq<byte>, skipping: bool)
    requires LoadsLines(spec, sink) && matcher.Valid() && Progress(spec, [], matcher.root, [], false)
    modifies matcher`root
    ensures matcher.Valid() && Progress(spec, Delivered(chunks), matcher.root, line, skipping)
  {
    line, skipping := [], false;
    var rest := chunks;
    ghost var done: seq<byte> := [];
    assert Delivers(done, rest, Delivered(chunks));
    while rest != [] && rest[0].Some? && rest[0].value != []
      invariant matcher.Valid() && Progress(spec, done, matcher.root, line, skipping)
      invariant Delivers(done, rest, Delivered(chunks))
      decreases |rest|
    {
      line, skipping := FeedChunk(rest[0].value, line, skipping, matcher, sink, spec, done);
      DeliversMore(done, rest, Delivered(chunks));
      done := done + rest[0].value;
      rest := rest[1..];
    }
    assert Delivered(rest) == [] && done + [] == done;
  }

  /** A blank line loads nothing, so an empty last line need not be fed. */
  lemma BlankLine(t: Node, sink: string -> bool)
    ensures AfterLine(t, [], sink) == t
  {}

  /** The last line, when no newline ends it. */
  method FeedRest(line: seq<byte>, skipping: bool, matcher: Matcher, sink: string -> bool,
                  ghost spec: seq<seq<byte>> -> Node, ghost done: seq<byte>)
    requires LoadsLines(spec, sink) && matcher.Valid() && Progress(spec, done, matcher.root, line, skipping)
    modifies matcher`root
    ensures matcher.Valid() && matcher.root == spec(Split(done, NEWLINE))
  {
    if skipping || line == [] {
      LastPiece(spec, sink, Split(done, NEWLINE));
      LineStep(spec, sink, done, matcher.root, line, skipping);
      BlankLine(matcher.root, sink);
    } else {
      FeedLineOf(line, matcher, sink, spec, done);
    }
  }

  lemma LinesTrieStarts(sink: string -> bool)
    ensures Progress(LinesTrie(sink), [], Trie.Empty, [], false)
  {
    assert LinesTrie(sink)([]) == Trie.Empty;
    assert Split<byte>([], NEWLINE)[..0] == [];
  }

  method CompileLines(chunks: seq<Option<seq<byte>>>, sink: string -> bool, ghost spec: seq<seq<byte>> -> Node)
    returns (matcher: Matcher)
    requires LoadsLines(spec, sink) && Progress(spec, [], Trie.Empty, [], false)
    ensures fresh(matcher) && matcher.Valid() && matcher.Finalized()
    ensures matcher.root == spec(Split(Delivered(chunks), NEWLINE))
  {
    matcher := new Matcher();
    var line, skipping := FeedAll(chunks, matcher, sink, spec);
    FeedRest(line, skipping, matcher, sink, spec, Delivered(chunks));
    matcher.Finalize();
  }

  /** Compile any input. However it is cut into reads, the matcher is the one its lines spell. */
  method CompileReader(chunks: seq<Option<seq<byte>>>, sink: string -> bool) returns (matcher: Matcher)
    ensures fresh(matcher) && matcher.Valid() && matcher.Finalized()
    ensures matcher.root == Load(Entries(Delivered(chunks), sink))
  {
    LinesTrieLoads(sink);
    LinesTrieStarts(sink);
    matcher := CompileLines(chunks, sink, LinesTrie(sink));
  }

  /** Lines are independent: text before a newline and text after it contribute separately. */
  lemma LinesAreIndependent(a: seq<byte>, b: seq<byte>, sink: string -> bool)
    ensures Entries(a + [NEWLINE] + b, sink) == Entries(a, sink) + Entries(b, sink)
  {
    SplitConcat(a, b, NEWLINE);
    ReadConcat(Reader(sink), Split(a, NEWLINE), Split(b, NEWLINE));
  }

  lemma {:induction false} ReadConcat(f: seq<byte> -> seq<Entry>, a: seq<seq<byte>>, b: seq<seq<byte>>)
    ensures ReadLines(f, a + b) == ReadLines(f, a) + ReadLines(f, b)
    decreases |b|
  {
    if b == [] {
      assert a + b == a;
      assert ReadLines(f, a) + [] == ReadLines(f, a);
    } else {
      var front, last := b[..|b| - 1], b[|b| - 1];
      ReadConcat(f, a, front);
      assert b == front + [last] && a + b == (a + front) + [last];
      ReadOneLine(f, a + front, last);
      ReadOneLine(f, front, last);
      Regroup(ReadLines(f, a), ReadLines(f, front), f(last));
    }
  }
}
