/** cpptoml's writer and its line-oriented parser: parsing what was written gives the tree back. */
module Toml {
  import opened TomlText
  import opened TomlTree
  import opened TomlMeaning

  // ---- lines as text ----

  function Tabs(n: nat): (t: string)
    ensures |t| == n
  {
    if n == 0 then "" else "\t" + Tabs(n - 1)
  }

  function LineBody(line: Line): string
  {
    match line
    case Blank => ""
    case Header(p) => "[" + PathText(p) + "]"
    case ArrayHeader(p) => "[[" + PathText(p) + "]]"
    case Item(parts, v) => PathText(parts) + " = " + ValueText(v)
  }

  function LineText(tabs: nat, line: Line): string { Tabs(tabs) + LineBody(line) }

  /** Nothing, or a comment, is left on the line. */
  predicate EndOfLine(s: string, i: nat)
    requires i <= |s|
  {
    SkipBlanks(s, i) == |s| || s[SkipBlanks(s, i)] == '#'
  }

  datatype Read = Unreadable | Got(line: Line)

  predicate NoEmptyPart(path: seq<Key>) { forall i :: 0 <= i < |path| ==> path[i] != "" }

  /** The rest of a header once its key is known. */
  function HeaderBy(s: string, keys: Parsed<seq<Key>>, inArray: bool): (r: Read)
    ensures r.Got? ==> Usable(r.line)
  {
    var close := if inArray then "]]" else "]";
    if keys.Fail? || keys.value == [] || !NoEmptyPart(keys.value) || !At(s, keys.next, close) || !EndOfLine(s, keys.next + |close|) then Unreadable
    else if inArray then Got(ArrayHeader(keys.value))
    else Got(Header(keys.value))
  }

  /** parse_table after the first bracket at p. */
  function ReadHeader(s: string, p: nat): (r: Read)
    requires p < |s|
    ensures r.Got? ==> Usable(r.line)
  {
    var inArray := p + 1 < |s| && s[p + 1] == '[';
    var q := if inArray then p + 2 else p + 1;
    if q == |s| || s[q] == ']' then Unreadable else HeaderBy(s, KeyPath(s, q, ']'), inArray)
  }

  /** The rest of parse_key_value once the key is known, for a given way to read values. */
  function ReadItemBy(s: string, keys: Parsed<seq<Key>>, value: nat -> Parsed<Value>): (r: Read)
    ensures r.Got? ==> Usable(r.line)
  {
    if keys.Fail? || keys.value == [] || !At(s, keys.next, "=") then Unreadable
    else
      var v := value(SkipBlanks(s, keys.next + 1));
      if v.Fail? || v.next > |s| || !EndOfLine(s, v.next) then Unreadable else Got(Item(keys.value, v.value))
  }

  /** How the parser reads a value on the line s. */
  function ValueReader(s: string): nat -> Parsed<Value> { (i: nat) => if i <= |s| then ParseValue(s, i) else Fail }

  /** parse_key_value from p on. */
  function ReadItem(s: string, p: nat): (r: Read)
    requires p <= |s|
    ensures r.Got? ==> Usable(r.line)
  {
    ReadItemBy(s, KeyPath(s, p, '='), ValueReader(s))
  }

  /** One line, as the loop in parse() takes it. */
  function ReadLine(s: string): (r: Read)
    ensures r.Got? ==> Usable(r.line)
  {
    var p := SkipBlanks(s, 0);
    if p == |s| || s[p] == '#' then Got(Blank)
    else if s[p] == '[' then ReadHeader(s, p)
    else ReadItem(s, p)
  }

  /** The lines the writer prints for trees in the subset. */
  predicate GoodLine(line: Line)
  {
    match line
    case Blank => false
    case Header(p) => GoodPath(p)
    case ArrayHeader(p) => GoodPath(p)
    case Item(parts, v) => |parts| == 1 && GoodPath(parts) && GoodValue(v)
  }

  lemma {:induction false} TabsAreBlanks(n: nat)
    ensures forall i :: 0 <= i < n ==> IsBlank(Tabs(n)[i])
    decreases n
  {
    if n > 0 {
      TabsAreBlanks(n - 1);
    }
  }

  /** The indentation is skipped. */
  lemma BodyAt(tabs: nat, body: string)
    requires body != "" && !IsBlank(body[0])
    ensures var s := Tabs(tabs) + body; SkipBlanks(s, 0) == tabs < |s| && s[tabs] == body[0] && At(s, tabs, body)
  {
    var s := Tabs(tabs) + body;
    TabsAreBlanks(tabs);
    SkipsTo(s, 0, tabs);
  }

  lemma GoodPathParts(path: seq<Key>)
    requires GoodPath(path)
    ensures path != [] && NoEmptyPart(path)
  {
  }

  lemma EndsHere(s: string)
    ensures EndOfLine(s, |s|)
  {
  }

  lemma HeaderReadsBack(path: seq<Key>, s: string, p: nat)
    requires GoodPath(path) && At(s, p, "[" + PathText(path) + "]") && |s| == p + |PathText(path)| + 2
    ensures ReadHeader(s, p) == Got(Header(path))
  {
    var t := PathText(path);
    var j := p + 1 + |t|;
    assert "[" + t + "]" == "[" + (t + "]");
    AtSplit(s, p, "[", t + "]");
    AtSplit(s, p + 1, t, "]");
    PathStart(path);
    AtChar(s, p + 1, t, 0);
    AtChar(s, j, "]", 0);
    PathReadsBack(path, s, p + 1, j, j, ']');
    GoodPathParts(path);
    EndsHere(s);
  }

  lemma ArrayHeaderReadsBack(path: seq<Key>, s: string, p: nat)
    requires GoodPath(path) && At(s, p, "[[" + PathText(path) + "]]") && |s| == p + |PathText(path)| + 4
    ensures ReadHeader(s, p) == Got(ArrayHeader(path))
  {
    var t := PathText(path);
    var j := p + 2 + |t|;
    assert "[[" + t + "]]" == "[[" + (t + "]]");
    AtSplit(s, p, "[[", t + "]]");
    AtSplit(s, p + 2, t, "]]");
    PathStart(path);
    AtChar(s, p, "[[", 1);
    AtChar(s, p + 2, t, 0);
    AtChar(s, j, "]]", 0);
    PathReadsBack(path, s, p + 2, j, j, ']');
    GoodPathParts(path);
    EndsHere(s);
  }

  /** Key, equals sign and value on a line. */
  lemma ItemPieces(t: string, w: string, s: string, p: nat, e: nat)
    requires At(s, p, t + " = " + w) && |s| == p + |t + " = " + w| && e == p + |t| && w != "" && !IsBlank(w[0])
    ensures At(s, p, t) && BlanksTo(s, e, e + 1) && e + 3 < |s| && s[e + 1] == '=' && At(s, e + 1, "=")
    ensures SkipBlanks(s, e + 2) == e + 3 && At(s, e + 3, w) && e + 3 + |w| == |s|
  {
    assert t + " = " + w == t + (" = " + w);
    AtSplit(s, p, t, " = " + w);
    AtSplit(s, e, " = ", w);
    AtChar(s, e, " = ", 0);
    AtChar(s, e, " = ", 1);
    AtChar(s, e, " = ", 2);
    AtChar(s, e + 3, w, 0);
    SkipsTo(s, e + 2, e + 3);
  }

  lemma ItemJoins(s: string, keys: Parsed<seq<Key>>, value: nat -> Parsed<Value>, parts: seq<Key>, j: nat, v: Value)
    requires keys == Ok(parts, j) && parts != [] && At(s, j, "=") && value(SkipBlanks(s, j + 1)) == Ok(v, |s|)
    ensures ReadItemBy(s, keys, value) == Got(Item(parts, v))
  {
    EndsHere(s);
  }

  lemma ValueReads(v: Value, s: string, i: nat)
    requires GoodValue(v) && At(s, i, ValueText(v)) && i + |ValueText(v)| == |s|
    ensures ValueReader(s)(i) == Ok(v, |s|)
  {
    ValueReadsBack(v, s, i, |s|);
  }

  lemma ItemReadsBack(parts: seq<Key>, v: Value, s: string, p: nat, t: string, w: string)
    requires GoodPath(parts) && GoodValue(v) && t == PathText(parts) && w == ValueText(v)
    requires At(s, p, t + " = " + w) && |s| == p + |t + " = " + w|
    ensures ReadItem(s, p) == Got(Item(parts, v))
  {
    NotBlankFirst(v);
    var e := FindPieces(t, w, s, p);
    PiecesReadBack(parts, v, s, p, e);
  }

  lemma NotBlankFirst(v: Value)
    ensures ValueText(v) != "" && !IsBlank(ValueText(v)[0])
  {
    ValueStart(v);
  }

  /** A key ends at e, and a value follows the equals sign up to the end of the line. */
  ghost predicate Pieces(t: string, w: string, s: string, p: nat, e: nat)
  {
    && At(s, p, t) && e == p + |t|
    && BlanksTo(s, e, e + 1) && e + 3 < |s| && At(s, e + 1, "=") && s[e + 1] == '='
    && SkipBlanks(s, e + 2) == e + 3 && At(s, e + 3, w) && e + 3 + |w| == |s|
  }

  lemma FindPieces(t: string, w: string, s: string, p: nat) returns (e: nat)
    requires At(s, p, t + " = " + w) && |s| == p + |t + " = " + w| && w != "" && !IsBlank(w[0])
    ensures Pieces(t, w, s, p, e)
  {
    e := p + |t|;
    ItemPieces(t, w, s, p, e);
  }

  lemma PiecesReadBack(parts: seq<Key>, v: Value, s: string, p: nat, e: nat)
    requires GoodPath(parts) && GoodValue(v) && Pieces(PathText(parts), ValueText(v), s, p, e)
    ensures ReadItem(s, p) == Got(Item(parts, v))
  {
    PathReadsBack(parts, s, p, e, e + 1, '=');
    ValueReads(v, s, e + 3);
    ItemJoins(s, KeyPath(s, p, '='), ValueReader(s), parts, e + 1, v);
  }

  /** Every line the writer prints reads back as itself. */
  lemma LineReadsBack(tabs: nat, line: Line)
    requires GoodLine(line)
    ensures ReadLine(LineText(tabs, line)) == Got(line)
  {
    var body, s := LineBody(line), LineText(tabs, line);
    match line
    case Header(p) =>
      BodyAt(tabs, body);
      HeaderReadsBack(p, s, tabs);
    case ArrayHeader(p) =>
      BodyAt(tabs, body);
      ArrayHeaderReadsBack(p, s, tabs);
    case Item(parts, v) =>
      PathStart(parts);
      assert body[0] == PathText(parts)[0];
      BodyAt(tabs, body);
      ItemReadsBack(parts, v, s, tabs, PathText(parts), ValueText(v));
  }

  // ---- what a line means ----

  /** From i on there is nothing but blanks, and perhaps a comment. */
  ghost predicate NothingLeft(s: string, i: nat)
  {
    exists j: nat :: BlanksTo(s, i, j) && (j < |s| ==> s[j] == '#')
  }

  /** The line s means this line: a header in brackets, an array header in double brackets, or key = value. */
  ghost predicate LineMeans(s: string, line: Line)
  {
    exists p: nat, e: nat, q: nat, f: nat :: LineParts(s, line, p, e, q, f)
  }

  /** p is where the line begins after blanks, e where its path ends, and q to f the value. */
  ghost predicate LineParts(s: string, line: Line, p: nat, e: nat, q: nat, f: nat)
  {
    BlanksTo(s, 0, p) &&
    match line
    case Blank => p < |s| ==> s[p] == '#'
    case Header(path) =>
      && At(s, p, "[") && !At(s, p, "[[") && PathMeans(s, p + 1, e, ']', path) && NoEmptyPart(path) && At(s, e, "]") && NothingLeft(s, e + 1)
    case ArrayHeader(path) =>
      && At(s, p, "[[") && PathMeans(s, p + 2, e, ']', path) && NoEmptyPart(path) && At(s, e, "]]") && NothingLeft(s, e + 2)
    case Item(parts, v) =>
      && p < |s| && s[p] != '[' && s[p] != '#' && PathMeans(s, p, e, '=', parts) && At(s, e, "=")
      && BlanksTo(s, e + 1, q) && ValueMeans(s, q, f, v) && NothingLeft(s, f)
  }

  lemma EndMeans(s: string, i: nat)
    requires i <= |s| && EndOfLine(s, i)
    ensures NothingLeft(s, i)
  {
    SkippedBlanks(s, i);
  }

  lemma HeaderMeans(s: string, p: nat)
    requires p < |s| && s[p] == '[' && BlanksTo(s, 0, p) && ReadHeader(s, p).Got?
    ensures LineMeans(s, ReadHeader(s, p).line)
  {
    var inArray := p + 1 < |s| && s[p + 1] == '[';
    var q := if inArray then p + 2 else p + 1;
    var keys := KeyPath(s, q, ']');
    KeyPathMeans(s, q, ']');
    Brackets(s, p);
    HeaderByMeans(s, p, keys, inArray);
  }

  lemma HeaderByMeans(s: string, p: nat, keys: Parsed<seq<Key>>, inArray: bool)
    requires BlanksTo(s, 0, p) && At(s, p, "[") && (At(s, p, "[[") <==> inArray) && HeaderBy(s, keys, inArray).Got?
    requires PathMeans(s, if inArray then p + 2 else p + 1, keys.next, ']', keys.value)
    ensures LineMeans(s, HeaderBy(s, keys, inArray).line)
  {
    EndMeans(s, keys.next + if inArray then 2 else 1);
    assert LineParts(s, HeaderBy(s, keys, inArray).line, p, keys.next, 0, 0);
  }

  lemma Brackets(s: string, p: nat)
    requires p < |s| && s[p] == '['
    ensures At(s, p, "[") && (At(s, p, "[[") <==> p + 1 < |s| && s[p + 1] == '[')
  {
    if At(s, p, "[[") {
      AtChar(s, p, "[[", 1);
    }
  }

  lemma ItemMeans(s: string, p: nat)
    requires p < |s| && s[p] != '[' && s[p] != '#' && BlanksTo(s, 0, p) && ReadItem(s, p).Got?
    ensures LineMeans(s, ReadItem(s, p).line)
  {
    KeyPathMeans(s, p, '=');
    ValueReaderMeans(s);
    ItemByMeans(s, p, KeyPath(s, p, '='), ValueReader(s));
  }

  lemma ValueReaderMeans(s: string)
    ensures ReadsValues(s, ValueReader(s))
  {
    forall q: nat | q <= |s| && ValueReader(s)(q).Ok?
      ensures ValueMeans(s, q, ValueReader(s)(q).next, ValueReader(s)(q).value)
    {
      ParsesMeaning(s, q);
    }
  }

  lemma ItemByMeans(s: string, p: nat, keys: Parsed<seq<Key>>, value: nat -> Parsed<Value>)
    requires p < |s| && s[p] != '[' && s[p] != '#' && BlanksTo(s, 0, p)
    requires keys.Ok? && PathMeans(s, p, keys.next, '=', keys.value) && ReadsValues(s, value) && ReadItemBy(s, keys, value).Got?
    ensures LineMeans(s, ReadItemBy(s, keys, value).line)
  {
    var q := SkipBlanks(s, keys.next + 1);
    SkippedBlanks(s, keys.next + 1);
    EndMeans(s, value(q).next);
    ItemIs(s, p, keys.next, q, value(q).next, keys.value, value(q).value);
  }

  lemma ItemIs(s: string, p: nat, e: nat, q: nat, f: nat, parts: seq<Key>, v: Value)
    requires BlanksTo(s, 0, p) && p < |s| && s[p] != '[' && s[p] != '#' && PathMeans(s, p, e, '=', parts) && At(s, e, "=")
    requires BlanksTo(s, e + 1, q) && ValueMeans(s, q, f, v) && NothingLeft(s, f)
    ensures LineMeans(s, Item(parts, v))
  {
    assert LineParts(s, Item(parts, v), p, e, q, f);
  }

  /** The parser takes a line for what it means. */
  lemma ReadsMeaning(s: string)
    requires ReadLine(s).Got?
    ensures LineMeans(s, ReadLine(s).line)
  {
    var p := SkipBlanks(s, 0);
    SkippedBlanks(s, 0);
    if p == |s| || s[p] == '#' {
      assert LineParts(s, Blank, p, 0, 0, 0);
    } else if s[p] == '[' {
      HeaderMeans(s, p);
    } else {
      ItemMeans(s, p);
    }
  }

  /** Every line the writer prints means the line it stands for. */
  lemma PrintedMeaning(tabs: nat, line: Line)
    requires GoodLine(line)
    ensures LineMeans(LineText(tabs, line), line)
  {
    LineReadsBack(tabs, line);
    ReadsMeaning(LineText(tabs, line));
  }

  // ---- text as lines ----

  datatype Next = End | Next(line: string, next: nat)

  /** detail::getline: up to LF or CRLF or the end; a lone CR stays in the line. */
  function GetLine(text: string, i: nat): (r: Next)
    requires i <= |text|
    ensures r.Next? ==> i < r.next <= |text|
    decreases |text| - i
  {
    if i == |text| then End
    else if text[i] == '\n' then Next("", i + 1)
    else if text[i] == '\r' && i + 1 < |text| && text[i + 1] == '\n' then Next("", i + 2)
    else
      match GetLine(text, i + 1)
      case End => Next([text[i]], i + 1)
      case Next(line, next) => Next([text[i]] + line, next)
  }

  /** What ends a line: LF, CRLF, or the end of the text after a last line that is not empty. */
  predicate EndsLine(text: string, line: string, end: string, next: nat)
  {
    || (end == "\n" && (line != "" ==> line[|line| - 1] != '\r'))
    || end == "\r\n"
    || (end == "" && next == |text| && line != "")
  }

  predicate HasNoLf(line: string) { forall i :: 0 <= i < |line| ==> line[i] != '\n' }

  /** A line is everything up to the first line end, and nothing is left only at the end of the text. */
  lemma {:induction false} LineTaken(text: string, i: nat) returns (end: string)
    requires i <= |text|
    ensures GetLine(text, i).End? <==> i == |text|
    ensures var r := GetLine(text, i); r.Next? ==>
              At(text, i, r.line + end) && r.next == i + |r.line| + |end| && HasNoLf(r.line) && EndsLine(text, r.line, end, r.next)
    decreases |text| - i
  {
    end := "";
    if i < |text| {
      var c := text[i];
      if c == '\n' {
        end := "\n";
      } else if c == '\r' && i + 1 < |text| && text[i + 1] == '\n' {
        end := "\r\n";
      } else {
        end := LineTaken(text, i + 1);
        var more := GetLine(text, i + 1);
        if more.End? {
          end := "";
        } else {
          LongerLine(text, i, c, more.line, end);
        }
      }
    }
  }

  lemma LongerLine(text: string, i: nat, c: char, line: string, end: string)
    requires i < |text| && c == text[i] && At(text, i + 1, line + end)
    ensures At(text, i, [c] + line + end)
  {
    assert [c] + line + end == [c] + (line + end);
    assert text[i..i + 1 + |line + end|] == [c] + text[i + 1..i + 1 + |line + end|];
  }

  /** What getline makes of a line whose beginning has been read up to i. */
  function Resume(begun: string, r: Next, i: nat): Next
  {
    match r
    case End => if begun == "" then End else Next(begun, i)
    case Next(line, next) => Next(begun + line, next)
  }

  /** The loop of getline. */
  method NextLine(text: string, i: nat) returns (r: Next)
    requires i <= |text|
    ensures r == GetLine(text, i)
  {
    var line, it := "", i;
    while it < |text|
      invariant i <= it <= |text| && Resume(line, GetLine(text, it), it) == GetLine(text, i)
    {
      if text[it] == '\n' {
        return Next(line, it + 1);
      }
      if text[it] == '\r' && it + 1 < |text| && text[it + 1] == '\n' {
        return Next(line, it + 2);
      }
      ResumeMore(line, text[it], GetLine(text, it + 1), it);
      line, it := line + [text[it]], it + 1;
    }
    r := if line == "" then End else Next(line, it);
  }

  lemma ResumeMore(begun: string, c: char, r: Next, i: nat)
    ensures Resume(begun + [c], r, i + 1) == Resume(begun, if r.End? then Next([c], i + 1) else Next([c] + r.line, r.next), i)
  {
    if r.Next? {
      assert begun + [c] + r.line == begun + ([c] + r.line);
    }
  }

  /** parse() from position i on, for a given way to read lines. */
  function ParseTextBy(text: string, i: nat, root: seq<Entry>, cur: seq<Key>, read: string -> Read): State
    requires i <= |text|
    decreases |text| - i
  {
    match GetLine(text, i)
    case End => State(root, cur)
    case Next(line, next) =>
      if read(line).Unreadable? || !Usable(read(line).line) then Failed
      else
        var st := Step(root, cur, read(line).line);
        if st.Failed? then Failed else ParseTextBy(text, next, st.root, st.cur, read)
  }

  /** parse(): starts with an empty root table. */
  function ParseText(text: string): State { ParseTextBy(text, 0, [], [], ReadLine) }

  // ---- what a text means ----

  /** The line at i, and where the next one begins. */
  ghost predicate LineAt(text: string, i: nat, line: string, next: nat)
  {
    exists end: string :: At(text, i, line + end) && next == i + |line| + |end| && HasNoLf(line) && EndsLine(text, line, end, next)
  }

  /** From i on the text means these lines, one after the other. */
  ghost predicate TextMeans(text: string, i: nat, lines: seq<Line>)
    decreases lines
  {
    if lines == [] then i == |text|
    else exists line: string, next: nat :: LineAt(text, i, line, next) && LineMeans(line, lines[0]) && TextMeans(text, next, lines[1..])
  }

  /** A way to read lines that reads what they mean. */
  ghost predicate ReadsMeanings(read: string -> Read)
  {
    forall s: string {:trigger read(s)} :: read(s).Got? ==> LineMeans(s, read(s).line)
  }

  lemma OneMoreLine(text: string, i: nat, line: string, next: nat, first: Line, more: seq<Line>)
    requires i <= |text| && GetLine(text, i) == Next(line, next) && LineMeans(line, first) && TextMeans(text, next, more)
    ensures TextMeans(text, i, [first] + more)
  {
    var end := LineTaken(text, i);
    assert LineAt(text, i, line, next);
    assert ([first] + more)[0] == first && ([first] + more)[1..] == more;
  }

  /** What parsing builds are the tables of the lines that the text means. */
  lemma {:induction false} TextRead(text: string, i: nat, root: seq<Entry>, cur: seq<Key>, read: string -> Read) returns (lines: seq<Line>)
    requires i <= |text| && ReadsMeanings(read) && ParseTextBy(text, i, root, cur, read).State?
    ensures AllUsable(lines) && TextMeans(text, i, lines) && Run(root, cur, lines) == ParseTextBy(text, i, root, cur, read)
    decreases |text| - i
  {
    match GetLine(text, i)
    case End =>
      var end := LineTaken(text, i);
      lines := [];
    case Next(line, next) =>
      var first := read(line).line;
      var st := Step(root, cur, first);
      var more := TextRead(text, next, st.root, st.cur, read);
      lines := [first] + more;
      OneMoreLine(text, i, line, next, first, more);
      OneMoreRun(root, cur, first, more);
  }

  lemma OneMoreRun(root: seq<Entry>, cur: seq<Key>, first: Line, more: seq<Line>)
    requires Usable(first) && AllUsable(more) && Step(root, cur, first).State?
    ensures AllUsable([first] + more)
    ensures Run(root, cur, [first] + more) == var st := Step(root, cur, first); Run(st.root, st.cur, more)
  {
    assert ([first] + more)[0] == first && ([first] + more)[1..] == more;
  }

  lemma ParsedMeaning(text: string)
    requires ParseText(text).State?
    ensures exists lines :: AllUsable(lines) && TextMeans(text, 0, lines) && Run([], [], lines) == ParseText(text)
  {
    forall s: string | ReadLine(s).Got?
      ensures LineMeans(s, ReadLine(s).line)
    {
      ReadsMeaning(s);
    }
    var lines := TextRead(text, 0, [], [], ReadLine);
  }

  predicate NoBreak(t: string) { forall i :: 0 <= i < |t| ==> t[i] != '\n' && t[i] != '\r' }

  /** A line without line breaks in it is taken whole. */
  lemma {:induction false} GetsLine(line: string, text: string, i: nat)
    requires NoBreak(line) && At(text, i, line + "\n")
    ensures GetLine(text, i) == Next(line, i + |line| + 1)
    decreases line
  {
    AtChar(text, i, line + "\n", 0);
    if line != "" {
      assert line + "\n" == [line[0]] + (line[1..] + "\n");
      AtSplit(text, i, [line[0]], line[1..] + "\n");
      GetsLine(line[1..], text, i + 1);
      assert line == [line[0]] + line[1..];
    }
  }

  lemma NoBreakConcat(a: string, b: string)
    requires NoBreak(a) && NoBreak(b)
    ensures NoBreak(a + b)
  {
  }

  lemma {:induction false} EscapeNoBreak(str: string)
    ensures NoBreak(EscapeAll(str))
    decreases str
  {
    if str != "" {
      EscapeNoBreak(str[1..]);
      EscapedChar(str[0]);
      NoBreakConcat(Escape(str[0]), EscapeAll(str[1..]));
    }
  }

  lemma EscapedChar(c: char)
    ensures NoBreak(Escape(c))
  {
  }

  lemma {:induction false} JoinNoBreak(texts: seq<string>, sep: string)
    requires NoBreak(sep) && forall i :: 0 <= i < |texts| ==> NoBreak(texts[i])
    ensures NoBreak(Join(texts, sep))
    decreases texts
  {
    if |texts| > 1 {
      JoinNoBreak(texts[1..], sep);
      NoBreakConcat(texts[0], sep);
      NoBreakConcat(texts[0] + sep, Join(texts[1..], sep));
    }
  }

  lemma QuotedNoBreak(str: string)
    ensures NoBreak(Quoted(str))
  {
    EscapeNoBreak(str);
  }

  lemma PathNoBreak(path: seq<Key>)
    ensures NoBreak(PathText(path))
  {
    var texts := KeyTexts(path);
    forall i | 0 <= i < |path|
      ensures NoBreak(texts[i])
    {
      KeyNoBreak(path[i]);
    }
    JoinNoBreak(texts, ".");
  }

  lemma KeyNoBreak(k: Key)
    ensures NoBreak(KeyText(k))
  {
    if Bare(k) {
      assert forall i :: 0 <= i < |k| ==> BareChar(k[i]);
    } else {
      QuotedNoBreak(k);
    }
  }

  lemma {:induction false} NatNoBreak(n: nat)
    ensures NoBreak(NatText(n))
    decreases n
  {
    if n >= 10 {
      NatNoBreak(n / 10);
    }
  }

  lemma {:induction false} ValueNoBreak(v: Value)
    ensures NoBreak(ValueText(v))
    decreases v
  {
    match v
    case Str(str) => QuotedNoBreak(str);
    case Int(n) => NatNoBreak(if n < 0 then -n else n);
    case Bool(_) =>
    case Arr(elems) =>
      forall m | 0 <= m < |elems|
        ensures NoBreak(ElementTexts(elems)[m])
      {
        ElementTextAt(elems, m);
        ValueNoBreak(elems[m]);
      }
      JoinNoBreak(ElementTexts(elems), ", ");
  }

  lemma LineNoBreak(tabs: nat, line: Line)
    ensures NoBreak(LineText(tabs, line))
  {
    TabsAreBlanks(tabs);
    BodyNoBreak(line);
    NoBreakConcat(Tabs(tabs), LineBody(line));
  }

  lemma BodyNoBreak(line: Line)
    ensures NoBreak(LineBody(line))
  {
    match line
    case Blank =>
    case Header(p) => PathNoBreak(p);
    case ArrayHeader(p) => PathNoBreak(p);
    case Item(parts, v) =>
      PathNoBreak(parts);
      ValueNoBreak(v);
  }

  // ---- what the writer prints ----

  /** A line with its indentation. */
  datatype Printed = Printed(tabs: nat, line: Line)

  function Text(ps: seq<Printed>): string
  {
    if ps == [] then "" else LineText(ps[0].tabs, ps[0].line) + "\n" + Text(ps[1..])
  }

  function LinesOf(ps: seq<Printed>): (r: seq<Line>)
    ensures |r| == |ps| && forall i :: 0 <= i < |ps| ==> r[i] == ps[i].line
  {
    if ps == [] then [] else [ps[0].line] + LinesOf(ps[1..])
  }

  predicate AllGood(ps: seq<Printed>) { forall i :: 0 <= i < |ps| ==> GoodLine(ps[i].line) }

  lemma {:induction false} TextConcat(a: seq<Printed>, b: seq<Printed>)
    ensures Text(a + b) == Text(a) + Text(b)
    decreases a
  {
    if a == [] {
      assert a + b == b;
    } else {
      assert (a + b)[0] == a[0] && (a + b)[1..] == a[1..] + b;
      TextConcat(a[1..], b);
    }
  }

  /** The text of each line is read as the line. */
  ghost predicate ReadsLines(read: string -> Read, ps: seq<Printed>)
  {
    forall i :: 0 <= i < |ps| ==> read(LineText(ps[i].tabs, ps[i].line)) == Got(ps[i].line)
  }

  /** Parsing printed lines runs the lines. */
  lemma {:induction false} TextRuns(ps: seq<Printed>, text: string, i: nat, root: seq<Entry>, cur: seq<Key>, read: string -> Read)
    requires ReadsLines(read, ps) && AllUsable(LinesOf(ps)) && At(text, i, Text(ps)) && |text| == i + |Text(ps)|
    ensures ParseTextBy(text, i, root, cur, read) == Run(root, cur, LinesOf(ps))
    decreases ps
  {
    if ps != [] {
      var next := FirstLine(ps, text, i);
      LinesTail(ps);
      StepsOver(text, i, next, ps[0], root, cur, read);
      var st := Step(root, cur, ps[0].line);
      if st.State? {
        TextRuns(ps[1..], text, next, st.root, st.cur, read);
      }
    }
  }

  lemma FirstLine(ps: seq<Printed>, text: string, i: nat) returns (next: nat)
    requires ps != [] && At(text, i, Text(ps))
    ensures GetLine(text, i) == Next(LineText(ps[0].tabs, ps[0].line), next)
    ensures next + |Text(ps[1..])| == i + |Text(ps)| && At(text, next, Text(ps[1..]))
  {
    var line, rest := LineText(ps[0].tabs, ps[0].line), Text(ps[1..]);
    LineNoBreak(ps[0].tabs, ps[0].line);
    next := TakesLine(line, rest, Text(ps), text, i);
  }

  lemma TakesLine(line: string, rest: string, all: string, text: string, i: nat) returns (next: nat)
    requires NoBreak(line) && all == line + "\n" + rest && At(text, i, all)
    ensures GetLine(text, i) == Next(line, next) && next + |rest| == i + |all| && At(text, next, rest)
  {
    AtSplit(text, i, line + "\n", rest);
    GetsLine(line, text, i);
    next := i + |line| + 1;
  }

  lemma StepsOver(text: string, i: nat, next: nat, p: Printed, root: seq<Entry>, cur: seq<Key>, read: string -> Read)
    requires i <= |text| && GetLine(text, i) == Next(LineText(p.tabs, p.line), next)
    requires Usable(p.line) && read(LineText(p.tabs, p.line)) == Got(p.line)
    ensures var st := Step(root, cur, p.line);
            ParseTextBy(text, i, root, cur, read) == if st.Failed? then Failed else ParseTextBy(text, next, st.root, st.cur, read)
  {
  }

  lemma LinesTail(ps: seq<Printed>)
    requires ps != []
    ensures LinesOf(ps)[0] == ps[0].line && LinesOf(ps)[1..] == LinesOf(ps[1..])
  {
  }

  lemma ReadsGoodLines(ps: seq<Printed>)
    requires AllGood(ps)
    ensures ReadsLines(ReadLine, ps)
  {
    forall i | 0 <= i < |ps|
      ensures ReadLine(LineText(ps[i].tabs, ps[i].line)) == Got(ps[i].line)
    {
      LineReadsBack(ps[i].tabs, ps[i].line);
    }
  }

  /** The line of a value. */
  function PItem(tabs: nat, e: Entry): seq<Printed>
  {
    if e.node.Leaf? then [Printed(tabs, Item([e.key], e.node.value))] else []
  }

  /** The values of the table at `path`, one to a line. */
  function PItems(path: seq<Key>, es: seq<Entry>): seq<Printed>
  {
    if es == [] then []
    else if es[0].node.Leaf? then [Printed(|path|, Item([es[0].key], es[0].node.value))] + PItems(path, es[1..])
    else PItems(path, es[1..])
  }

  function PHeader(path: seq<Key>, inArray: bool): seq<Printed>
  {
    if path == [] then [] else [Printed(|path| - 1, if inArray then ArrayHeader(path) else Header(path))]
  }

  /** The table at `path` with its header, values and tables. */
  function PTable(path: seq<Key>, es: seq<Entry>, inArray: bool): seq<Printed>
    decreases es, 1
  {
    PHeader(path, inArray) + (PItems(path, es) + PSubs(path, es))
  }

  function PSubs(path: seq<Key>, es: seq<Entry>): seq<Printed>
    decreases es, 0
  {
    if es == [] then [] else PNode(path + [es[0].key], es[0].node) + PSubs(path, es[1..])
  }

  function PNode(path: seq<Key>, n: Node): seq<Printed>
    decreases n, 0
  {
    match n
    case Leaf(_) => []
    case Table(t) => PTable(path, t, false)
    case Tables(ts) => PElements(path, ts)
  }

  function PElements(path: seq<Key>, ts: seq<Body>): seq<Printed>
    decreases ts, 0
  {
    if ts == [] then [] else PTable(path, ts[0].entries, true) + PElements(path, ts[1..])
  }

  // ---- absolute and relative paths ----

  function Prefixed(path: seq<Key>, line: Line): Line
  {
    match line
    case Header(p) => Header(path + p)
    case ArrayHeader(p) => ArrayHeader(path + p)
    case _ => line
  }

  function AllPrefixed(path: seq<Key>, lines: seq<Line>): seq<Line>
  {
    if lines == [] then [] else [Prefixed(path, lines[0])] + AllPrefixed(path, lines[1..])
  }

  lemma {:induction false} PrefixedConcat(path: seq<Key>, a: seq<Line>, b: seq<Line>)
    ensures AllPrefixed(path, a + b) == AllPrefixed(path, a) + AllPrefixed(path, b)
    decreases a
  {
    if a == [] {
      assert a + b == b;
    } else {
      assert (a + b)[0] == a[0] && (a + b)[1..] == a[1..] + b;
      PrefixedConcat(path, a[1..], b);
    }
  }

  lemma {:induction false} PrefixedBelow(path: seq<Key>, k: Key, lines: seq<Line>)
    requires AllUsable(lines)
    ensures AllPrefixed(path, AllBelow(k, lines)) == AllPrefixed(path + [k], lines)
    decreases lines
  {
    if lines != [] {
      BelowHead(k, lines);
      PrefixedBelow(path, k, lines[1..]);
      match lines[0]
      case Header(p) => assert path + ([k] + p) == path + [k] + p;
      case ArrayHeader(p) => assert path + ([k] + p) == path + [k] + p;
      case _ =>
    }
  }

  lemma {:induction false} PrefixedNothing(lines: seq<Line>)
    ensures AllPrefixed([], lines) == lines
    decreases lines
  {
    if lines != [] {
      PrefixedNothing(lines[1..]);
      match lines[0]
      case Header(p) => assert [] + p == p;
      case ArrayHeader(p) => assert [] + p == p;
      case _ =>
    }
  }

  lemma {:induction false} LinesConcat(a: seq<Printed>, b: seq<Printed>)
    ensures LinesOf(a + b) == LinesOf(a) + LinesOf(b)
    decreases a
  {
    if a == [] {
      assert a + b == b;
    } else {
      assert (a + b)[0] == a[0] && (a + b)[1..] == a[1..] + b;
      LinesConcat(a[1..], b);
    }
  }

  lemma {:induction false} ItemsAreLines(path: seq<Key>, es: seq<Entry>)
    ensures LinesOf(PItems(path, es)) == AllPrefixed(path, ItemLines(es))
    decreases es
  {
    if es != [] {
      ItemsAreLines(path, es[1..]);
      if es[0].node.Leaf? {
        var p, l := Printed(|path|, Item([es[0].key], es[0].node.value)), Item([es[0].key], es[0].node.value);
        LinesConcat([p], PItems(path, es[1..]));
        PrefixedConcat(path, [l], ItemLines(es[1..]));
        assert LinesOf([p]) == [l] && AllPrefixed(path, [l]) == [l];
      }
    }
  }

  /** The printed lines of a table are its relative lines with its path in front. */
  lemma {:induction false} BodyIsLines(path: seq<Key>, es: seq<Entry>)
    ensures LinesOf(PItems(path, es) + PSubs(path, es)) == AllPrefixed(path, Lines(es))
    decreases es, 2
  {
    ItemsAreLines(path, es);
    SubsAreLines(path, es);
    LinesConcat(PItems(path, es), PSubs(path, es));
    PrefixedConcat(path, ItemLines(es), SubLines(es));
  }

  lemma {:induction false} SubsAreLines(path: seq<Key>, es: seq<Entry>)
    ensures LinesOf(PSubs(path, es)) == AllPrefixed(path, SubLines(es))
    decreases es, 1
  {
    if es != [] {
      NodeIsLines(path, es[0].key, es[0].node);
      SubsAreLines(path, es[1..]);
      LinesConcat(PNode(path + [es[0].key], es[0].node), PSubs(path, es[1..]));
      PrefixedConcat(path, NodeLines(es[0].key, es[0].node), SubLines(es[1..]));
    }
  }

  lemma {:induction false} NodeIsLines(path: seq<Key>, k: Key, n: Node)
    ensures LinesOf(PNode(path + [k], n)) == AllPrefixed(path, NodeLines(k, n))
    decreases n, 1
  {
    match n
    case Leaf(_) =>
    case Table(t) =>
      BodyIsLines(path + [k], t);
      HeadedLines(path, k, false, PItems(path + [k], t) + PSubs(path + [k], t), Lines(t));
    case Tables(ts) =>
      ElementsAreLines(path, k, ts);
  }

  /** A header line with the lines of its table. */
  lemma HeadedLines(path: seq<Key>, k: Key, inArray: bool, body: seq<Printed>, lines: seq<Line>)
    requires AllUsable(lines) && LinesOf(body) == AllPrefixed(path + [k], lines)
    ensures LinesOf(PHeader(path + [k], inArray) + body)
         == AllPrefixed(path, [if inArray then ArrayHeader([k]) else Header([k])] + AllBelow(k, lines))
  {
    var h: Line := if inArray then ArrayHeader([k]) else Header([k]);
    LinesConcat(PHeader(path + [k], inArray), body);
    PrefixedConcat(path, [h], AllBelow(k, lines));
    PrefixedBelow(path, k, lines);
    assert LinesOf(PHeader(path + [k], inArray)) == [Prefixed(path, h)] == AllPrefixed(path, [h]);
  }

  lemma {:induction false} ElementsAreLines(path: seq<Key>, k: Key, ts: seq<Body>)
    ensures LinesOf(PElements(path + [k], ts)) == AllPrefixed(path, ElementLines(k, ts))
    decreases ts, 1
  {
    if ts != [] {
      var es := ts[0].entries;
      BodyIsLines(path + [k], es);
      HeadedLines(path, k, true, PItems(path + [k], es) + PSubs(path + [k], es), Lines(es));
      ElementsAreLines(path, k, ts[1..]);
      LinesConcat(PTable(path + [k], es, true), PElements(path + [k], ts[1..]));
      PrefixedConcat(path, [ArrayHeader([k])] + AllBelow(k, Lines(es)), ElementLines(k, ts[1..]));
    }
  }

  // ---- the lines of a tree in the subset are good lines ----

  predicate GoodPrefix(path: seq<Key>) { forall i :: 0 <= i < |path| ==> GoodKey(path[i]) }

  lemma GoodConcat(a: seq<Printed>, b: seq<Printed>)
    requires AllGood(a) && AllGood(b)
    ensures AllGood(a + b)
  {
  }

  lemma {:induction false} GoodItems(path: seq<Key>, es: seq<Entry>)
    requires GoodEntries(es)
    ensures AllGood(PItems(path, es))
    decreases es
  {
    if es != [] {
      GoodItems(path, es[1..]);
      if es[0].node.Leaf? {
        assert GoodKey(es[0].key) && GoodValue(es[0].node.value);
        var p := Printed(|path|, Item([es[0].key], es[0].node.value));
        assert GoodLine(p.line);
        GoodConcat([p], PItems(path, es[1..]));
      }
    }
  }

  lemma {:induction false} GoodTable(path: seq<Key>, es: seq<Entry>, inArray: bool)
    requires GoodPrefix(path) && GoodTree(es)
    ensures AllGood(PTable(path, es, inArray))
    decreases es, 2
  {
    GoodItems(path, es);
    GoodSubs(path, es);
    GoodConcat(PItems(path, es), PSubs(path, es));
    assert AllGood(PHeader(path, inArray));
    GoodConcat(PHeader(path, inArray), PItems(path, es) + PSubs(path, es));
  }

  lemma {:induction false} GoodSubs(path: seq<Key>, es: seq<Entry>)
    requires GoodPrefix(path) && GoodEntries(es)
    ensures AllGood(PSubs(path, es))
    decreases es, 1
  {
    if es != [] {
      GoodNodeLines(path + [es[0].key], es[0].node);
      GoodSubs(path, es[1..]);
      GoodConcat(PNode(path + [es[0].key], es[0].node), PSubs(path, es[1..]));
    }
  }

  lemma {:induction false} GoodNodeLines(path: seq<Key>, n: Node)
    requires GoodPrefix(path) && GoodNode(n)
    ensures AllGood(PNode(path, n))
    decreases n, 1
  {
    match n
    case Leaf(_) =>
    case Table(t) => GoodTable(path, t, false);
    case Tables(ts) => GoodElements(path, ts);
  }

  lemma {:induction false} GoodElements(path: seq<Key>, ts: seq<Body>)
    requires GoodPrefix(path) && GoodTables(ts)
    ensures AllGood(PElements(path, ts))
    decreases ts, 1
  {
    if ts != [] {
      GoodTable(path, ts[0].entries, true);
      GoodElements(path, ts[1..]);
      GoodConcat(PTable(path, ts[0].entries, true), PElements(path, ts[1..]));
    }
  }

  // ---- the round trip ----

  function Break(b: bool): string { if b then "\n" else "" }

  /** The first thing the writer does is to end a line: nothing is to be written, or an array of no tables comes first. */
  predicate BlankFirst(path: seq<Key>, es: seq<Entry>, naked: bool)
  {
    path == [] && !naked && (es == [] || (es[0].node == Tables([]) && PItems(path, es) == []))
  }

  /** What the visitor of a table adds to the stream. */
  function TableText(path: seq<Key>, es: seq<Entry>, inArray: bool, naked: bool): string
  {
    Break(BlankFirst(path, es, naked)) + Text(PTable(path, es, inArray))
  }

  /** What the writer emits for a root table. */
  function WrittenText(es: seq<Entry>): string { TableText([], es, false, false) }

  /**
   * For every tree of tables, table arrays and good values, in every order of the entries, the parser accepts what the
   * writer emits and builds the tree without its empty table arrays: the same tree if and only if there are none.
   */
  lemma RoundTrip(es: seq<Entry>)
    requires GoodTree(es)
    ensures var st := ParseText(WrittenText(es)); st.State? && st.root == Ordered(es) && (ViewOf(st.root) == ViewOf(es) <==> Full(es))
  {
    var ps, text := PTable([], es, false), WrittenText(es);
    BodyIsLines([], es);
    PrefixedNothing(Lines(es));
    assert ps == PItems([], es) + PSubs([], es);
    TreeReadsBack(es);
    GoodTable([], es, false);
    ReadsGoodLines(ps);
    ParsesFrom(Break(BlankFirst([], es, false)), Text(ps));
    TextRuns(ps, text, |text| - |Text(ps)|, [], [], ReadLine);
  }

  /** An empty line in front changes nothing. */
  lemma ParsesFrom(lead: string, body: string)
    requires lead == "" || lead == "\n"
    ensures At(lead + body, |lead|, body)
    ensures ParseText(lead + body) == ParseTextBy(lead + body, |lead|, [], [], ReadLine)
  {
    var text := lead + body;
    assert text[|lead|..] == body;
    assert ReadLine("") == Got(Blank);
    SkipsBlank(text, |lead|, ReadLine);
  }

  lemma SkipsBlank(text: string, i: nat, read: string -> Read)
    requires i == 0 || (i == 1 && text != "" && text[0] == '\n')
    requires i <= |text| && read("") == Got(Blank)
    ensures ParseTextBy(text, 0, [], [], read) == ParseTextBy(text, i, [], [], read)
  {
  }

  // ---- the writer at work ----

  lemma {:induction false} ItemsSnoc(path: seq<Key>, es: seq<Entry>, i: nat)
    requires i < |es|
    ensures PItems(path, es[..i + 1])
         == PItems(path, es[..i]) + PItem(|path|, es[i])
    decreases i
  {
    if i == 0 {
      assert es[..1] == [es[0]] && es[..0] == [];
      assert PItems(path, [es[0]][1..]) == [];
    } else {
      assert es[..i + 1][1..] == es[1..][..i] && es[..i][1..] == es[1..][..i - 1] && es[1..][i - 1] == es[i];
      ItemsSnoc(path, es[1..], i - 1);
    }
  }

  lemma {:induction false} SubsSnoc(path: seq<Key>, es: seq<Entry>, i: nat)
    requires i < |es|
    ensures PSubs(path, es[..i + 1]) == PSubs(path, es[..i]) + PNode(path + [es[i].key], es[i].node)
    decreases i
  {
    if i == 0 {
      assert es[..1] == [es[0]] && es[..0] == [];
      assert PSubs(path, [es[0]][1..]) == [];
    } else {
      assert es[..i + 1][1..] == es[1..][..i] && es[..i][1..] == es[1..][..i - 1] && es[1..][i - 1] == es[i];
      SubsSnoc(path, es[1..], i - 1);
      Assoc(PNode(path + [es[0].key], es[0].node), PSubs(path, es[1..][..i - 1]), PNode(path + [es[i].key], es[i].node));
    }
  }

  lemma {:induction false} ElementsSnoc(path: seq<Key>, ts: seq<Body>, i: nat)
    requires i < |ts|
    ensures PElements(path, ts[..i + 1]) == PElements(path, ts[..i]) + PTable(path, ts[i].entries, true)
    decreases i
  {
    if i == 0 {
      assert ts[..1] == [ts[0]] && ts[..0] == [];
      assert PElements(path, [ts[0]][1..]) == [];
    } else {
      assert ts[..i + 1][1..] == ts[1..][..i] && ts[..i][1..] == ts[1..][..i - 1] && ts[1..][i - 1] == ts[i];
      ElementsSnoc(path, ts[1..], i - 1);
      Assoc(PTable(path, ts[0].entries, true), PElements(path, ts[1..][..i - 1]), PTable(path, ts[i].entries, true));
    }
  }

  lemma TextOne(p: Printed)
    ensures Text([p]) == LineText(p.tabs, p.line) + "\n"
  {
    assert Text([p][1..]) == "";
  }

  lemma {:induction false} JoinSnoc(texts: seq<string>, sep: string, i: nat)
    requires i < |texts|
    ensures Join(texts[..i + 1], sep) == Join(texts[..i], sep) + (if i > 0 then sep else "") + texts[i]
    decreases i
  {
    if i == 0 {
      assert texts[..1] == [texts[0]] && texts[..0] == [];
    } else {
      assert texts[..i + 1][1..] == texts[1..][..i] && texts[..i][1..] == texts[1..][..i - 1] && texts[1..][i - 1] == texts[i];
      JoinSnoc(texts[1..], sep, i - 1);
      if i == 1 {
        assert texts[..1] == [texts[0]];
      }
    }
  }

  // Concatenations of text written piece by piece.

  lemma QuotedConcat(base: string, e: string)
    ensures base + "\"" + e + "\"" == base + ("\"" + e + "\"")
  {
  }

  lemma Append3(base: string, a: string, b: string, c: string)
    ensures base + a + b + c == base + (a + b + c)
    ensures b == "" ==> base + a + c == base + (a + b + c)
  {
  }

  lemma Bracketed(base: string, t: string)
    ensures base + "[" + t + "]" == base + ("[" + t + "]")
  {
  }

  lemma HeaderConcat(base: string, tabs: string, p: string)
    ensures base + tabs + "[" + p + "]" + "\n" == base + (tabs + ("[" + p + "]") + "\n")
    ensures base + tabs + "[" + "[" + p + "]" + "]" + "\n" == base + (tabs + ("[[" + p + "]]") + "\n")
  {
    assert "[" + "[" == "[[" && "]" + "]" == "]]";
  }

  class Writer {
    var stream: string
    var path: seq<Key>
    var naked: bool

    constructor ()
      ensures stream == "" && path == [] && !naked
    {
      stream, path, naked := "", [], false;
    }

    method Write(t: string)
      modifies this`stream, this`naked
      ensures stream == old(stream) + t && !naked
    {
      stream, naked := stream + t, false;
    }

    /** endline: never two in a row. */
    method Endline()
      modifies this`stream, this`naked
      ensures naked && stream == if old(naked) then old(stream) else old(stream) + "\n"
    {
      if !naked {
        stream := stream + "\n";
        naked := true;
      }
    }

    /** indent, before something that belongs to the path. */
    method Indent()
      requires path != []
      modifies this`stream, this`naked
      ensures stream == old(stream) + Tabs(|path| - 1)
    {
      var i := 1;
      while i < |path|
        invariant 1 <= i <= |path| && stream + Tabs(|path| - i) == old(stream) + Tabs(|path| - 1)
      {
        Associative(stream, "\t", Tabs(|path| - i - 1));
        Write("\t");
        i := i + 1;
      }
    }

    method WriteQuoted(str: string)
      modifies this`stream, this`naked
      ensures stream == old(stream) + Quoted(str) && !naked
    {
      var e := EscapeString(str);
      QuotedConcat(stream, e);
      Write("\"");
      Write(e);
      Write("\"");
    }

    method WriteKey(k: Key)
      modifies this`stream, this`naked
      ensures stream == old(stream) + KeyText(k) && !naked
    {
      if Bare(k) {
        Write(k);
      } else {
        WriteQuoted(k);
      }
    }

    method WritePath()
      requires path != []
      modifies this`stream, this`naked
      ensures stream == old(stream) + PathText(path) && !naked
    {
      ghost var texts := KeyTexts(path);
      var i := 0;
      while i < |path|
        invariant 0 <= i <= |path| && stream == old(stream) + Join(texts[..i], ".") && (i > 0 ==> !naked)
      {
        JoinSnoc(texts, ".", i);
        Append3(old(stream), Join(texts[..i], "."), if i > 0 then "." else "", KeyText(path[i]));
        if i > 0 {
          Write(".");
        }
        WriteKey(path[i]);
        i := i + 1;
      }
      assert texts[..|path|] == texts;
    }

    /** write_table_header. */
    method WriteTableHeader(inArray: bool)
      modifies this`stream, this`naked
      ensures stream == old(stream) + Text(PHeader(path, inArray)) && naked == (path != [] || old(naked))
    {
      if path != [] {
        TextOne(PHeader(path, inArray)[0]);
        HeaderConcat(stream, Tabs(|path| - 1), PathText(path));
        Indent();
        Write("[");
        if inArray {
          Write("[");
        }
        WritePath();
        if inArray {
          Write("]");
        }
        Write("]");
        Endline();
      }
    }

    /** The leaf visitors: strings, integers, booleans, and arrays element by element. */
    method VisitValue(v: Value)
      modifies this`stream, this`naked
      ensures stream == old(stream) + ValueText(v) && !naked
      decreases v, 1
    {
      match v
      case Str(str) =>
        WriteQuoted(str);
      case Int(n) =>
        Write(IntText(n));
      case Bool(b) =>
        Write(if b then "true" else "false");
      case Arr(elems) =>
        VisitArray(elems);
    }

    method VisitArray(elems: seq<Value>)
      modifies this`stream, this`naked
      ensures stream == old(stream) + ("[" + Join(ElementTexts(elems), ", ") + "]") && !naked
      decreases elems, 0
    {
      ghost var texts := ElementTexts(elems);
      ghost var base := stream + "[";
      Write("[");
      var i := 0;
      while i < |elems|
        invariant 0 <= i <= |elems| && stream == base + Join(texts[..i], ", ") && !naked
      {
        JoinSnoc(texts, ", ", i);
        ElementTextAt(elems, i);
        Append3(base, Join(texts[..i], ", "), if i > 0 then ", " else "", ValueText(elems[i]));
        if i > 0 {
          Write(", ");
        }
        VisitValue(elems[i]);
        i := i + 1;
      }
      assert texts[..|elems|] == texts;
      Bracketed(old(stream), Join(texts, ", "));
      Write("]");
    }

    /** Everything in `text` has been written after `base`, except perhaps its last line end. */
    ghost predicate Wrote(base: string, start: bool, text: string)
      reads this
    {
      if text == "" then stream == base && naked == start else stream + Break(!naked) == base + text
    }

    /** Finishes the line begun last, if any. */
    method FinishLine(ghost base: string, ghost start: bool, ghost text: string)
      requires Wrote(base, start, text) && (text != "" || naked)
      modifies this`stream, this`naked
      ensures Wrote(base, start, text) && stream == base + text && naked
    {
      Endline();
    }

    /** write_table_item_header and the value, on the path of the value. */
    method WriteItem(k: Key, v: Value)
      modifies this
      ensures path == old(path) && !naked && stream == old(stream) + Tabs(|path|) + KeyText(k) + " = " + ValueText(v)
    {
      path := path + [k];
      Indent();
      WriteKey(k);
      Write(" = ");
      VisitValue(v);
      path := path[..|path| - 1];
    }

    /** One entry among the values: a value on a line of its own, without its line end, or nothing. */
    method VisitItem(e: Entry, count: nat, ghost base: string, ghost start: bool, ghost text: string, ghost here: string, ghost was: bool)
      returns (count': nat)
      requires here == Text(PItem(|path|, e)) && Begun(count, base, start, text, was)
      modifies this
      ensures path == old(path) && Begun(count', base, start, text + here, was)
    {
      count' := count;
      if e.node.Leaf? {
        if count > 0 {
          FinishLine(base, start, text);
        }
        ItemConcat(base, text, |path|, e.key, e.node.value);
        WriteItem(e.key, e.node.value);
        count' := count + 1;
      } else {
        assert text + here == text;
      }
    }

    /** The next entry. */
    method VisitItemAt(es: seq<Entry>, i: nat, count: nat, ghost base: string, ghost start: bool, ghost header: seq<Printed>, ghost was: bool)
      returns (count': nat, ghost text: string)
      requires i < |es| && Begun(count, base, start, Text(header + PItems(path, es[..i])), was)
      modifies this
      ensures path == old(path) && text == Text(header + PItems(path, es[..i + 1])) && Begun(count', base, start, text, was)
    {
      NextItem(header, path, es, i);
      count' := VisitItem(es[i], count, base, start, Text(header + PItems(path, es[..i])), Text(PItem(|path|, es[i])), was);
      text := Text(header + PItems(path, es[..i + 1]));
    }

    /** The values of a table, in iteration order. */
    method VisitItems(es: seq<Entry>, ghost base: string, ghost start: bool, ghost header: seq<Printed>) returns (count: nat)
      requires Wrote(base, start, Text(header)) && stream == base + Text(header)
      modifies this
      ensures path == old(path) && Begun(count, base, start, Text(header + PItems(path, es)), old(naked))
    {
      count := 0;
      var i := 0;
      ghost var text := Text(header);
      assert es[..0] == [] && header + [] == header;
      while i < |es|
        invariant 0 <= i <= |es| && path == old(path) && text == Text(header + PItems(path, es[..i]))
        invariant Begun(count, base, start, text, old(naked))
      {
        count, text := VisitItemAt(es, i, count, base, start, header, old(naked));
        i := i + 1;
      }
      assert es[..|es|] == es;
    }

    /** Where the loop over the values stands. */
    ghost predicate Begun(count: nat, base: string, start: bool, text: string, was: bool)
      reads this
    {
      Wrote(base, start, text) && (count > 0 ==> text != "") && (count == 0 ==> stream == base + text && naked == was)
    }

    /** The visitor of tables: header, values, then tables and table arrays. */
    method VisitTable(es: seq<Entry>, inArray: bool)
      modifies this
      ensures path == old(path) && naked
      ensures stream == old(stream) + TableText(path, es, inArray, old(naked))
      decreases es, 2
    {
      ghost var base, start := stream, naked;
      WriteTableHeader(inArray);
      TextEmpty(PHeader(path, inArray));
      ghost var gap := VisitBody(es, base, start, PHeader(path, inArray));
      TextEmpty(PTable(path, es, inArray));
      BlankOrGap(path, es, inArray, start);
      Associative(base, Break(gap), Text(PTable(path, es, inArray)));
      Endline();
    }

    method VisitBody(es: seq<Entry>, ghost base: string, ghost start: bool, ghost header: seq<Printed>) returns (ghost gap: bool)
      requires Wrote(base, start, Text(header)) && stream == base + Text(header) && (header != [] ==> naked)
      modifies this
      ensures path == old(path) && gap == GapFirst(header + PItems(path, es), es, start)
      ensures Wrote(base + Break(gap), gap || start, Text(header + (PItems(path, es) + PSubs(path, es))))
      decreases es, 1
    {
      var count := VisitItems(es, base, start, header);
      NoItems(path, es);
      gap := VisitSubs(es, count, base, start, header + PItems(path, es));
      Assoc(header, PItems(path, es), PSubs(path, es));
    }

    /** The tables and table arrays of a table, in iteration order. */
    method VisitSubs(es: seq<Entry>, count: nat, ghost base: string, ghost start: bool, ghost before: seq<Printed>) returns (ghost gap: bool)
      requires Wrote(base, start, Text(before)) && (before == [] ==> NoLeaf(es))
      requires (count == 0 ==> stream == base + Text(before) && (naked || before == [])) && (count > 0 ==> Text(before) != "")
      modifies this
      ensures path == old(path) && gap == GapFirst(before, es, start)
      ensures Wrote(base + Break(gap), gap || start, Text(before + PSubs(path, es)))
      decreases es, 0
    {
      var subs, i := 0, 0;
      gap := false;
      ghost var text, b := Text(before), base;
      TextEmpty(before);
      assert es[..0] == [] && before + [] == before && base + "" == base;
      while i < |es|
        invariant 0 <= i <= |es| && path == old(path) && text == Text(before + PSubs(path, es[..i]))
        invariant gap == (i > 0 && GapFirst(before, es, start)) && b == base + Break(gap)
        invariant Ready(count, subs, before == [], i == 0, b, gap || start, text)
      {
        ghost var here := Text(PNode(path + [es[i].key], es[i].node));
        NextSub(before, path, es, i);
        ghost var blank;
        subs, blank := VisitEntry(es[i], count, subs, before == [], i == 0, b, gap || start, text, here);
        BreakOnce(base, b, gap, blank);
        gap, b, text := gap || blank, b + Break(blank), text + here;
        i := i + 1;
      }
      assert es[..|es|] == es;
    }

    /** Where the loop over the tables stands: what it has written, and whether a line end is due before the next. */
    ghost predicate Ready(count: nat, subs: nat, bare: bool, first: bool, base: string, start: bool, text: string)
      reads this
    {
      && Wrote(base, start, text)
      && (subs > 0 ==> naked) && (bare && !first ==> subs > 0) && (!bare || count > 0 ==> text != "") && (bare && first ==> text == "")
      && (count == 0 && subs == 0 ==> stream == base + text && (naked || (bare && first && text == "")))
    }

    /** One round of that loop. */
    method VisitEntry(e: Entry, count: nat, subs: nat, ghost bare: bool, ghost first: bool, ghost base: string, ghost start: bool, ghost text: string, ghost here: string)
      returns (subs': nat, ghost blank: bool)
      requires Ready(count, subs, bare, first, base, start, text) && (bare ==> !e.node.Leaf?) && here == Text(PNode(path + [e.key], e.node))
      modifies this
      ensures path == old(path) && Ready(count, subs', bare, false, base + Break(blank), start || blank, text + here)
      ensures if first then blank == (bare && !start && e.node == Tables([])) else !blank
      decreases e, 0
    {
      subs', blank := subs, false;
      if !e.node.Leaf? {
        blank := text == "" && !start && e.node == Tables([]);
        VisitSub(e.key, e.node, count > 0 || subs > 0, base, start, text, here);
        subs' := subs + 1;
      } else {
        assert text + here == text && base + Break(false) == base;
      }
    }

    /** One of them, on a new line unless it comes first. */
    method VisitSub(k: Key, n: Node, later: bool, ghost base: string, ghost start: bool, ghost text: string, ghost here: string)
      requires !n.Leaf? && here == Text(PNode(path + [k], n)) && Wrote(base, start, text)
      requires if later then text != "" || naked else stream == base + text && (text != "" ==> naked)
      modifies this
      ensures var blank := text == "" && !start && n == Tables([]);
              path == old(path) && naked && Wrote(base + Break(blank), blank || start, text + here)
      decreases n, 3
    {
      if later {
        FinishLine(base, start, text);
      }
      HeadedNode(path + [k], n);
      SubConcat(base, text, here);
      VisitChild(k, n);
    }

    /** One table or table array, on its own path. */
    method VisitChild(k: Key, n: Node)
      requires !n.Leaf?
      modifies this
      ensures path == old(path) && naked && stream == old(stream) + NodeText(path + [k], n, old(naked))
      decreases n, 2
    {
      path := path + [k];
      VisitNode(n);
      path := path[..|path| - 1];
    }

    method VisitNode(n: Node)
      requires !n.Leaf? && path != []
      modifies this
      ensures path == old(path) && naked && stream == old(stream) + NodeText(path, n, old(naked))
      decreases n, 1
    {
      if n.Table? {
        VisitTable(n.entries, false);
      } else {
        VisitTables(n.elems);
      }
    }

    /** The visitor of table arrays. */
    method VisitTables(ts: seq<Body>)
      modifies this
      ensures path == old(path) && naked && stream == old(stream) + TablesText(path, ts, old(naked))
      decreases ts, 1
    {
      var j := 0;
      ghost var gap := ts != [] && BlankFirst(path, ts[0].entries, naked);
      StartTables(ts, gap);
      while j < |ts|
        invariant 0 <= j <= |ts| && path == old(path) && (j == 0 ==> naked == old(naked)) && VisitedTables(ts, j, old(stream), gap)
      {
        VisitElement(ts, j, old(stream), gap);
        j := j + 1;
      }
      FinishTables(ts, old(stream), old(naked));
    }

    /** The first j tables of an array have been written. */
    ghost predicate VisitedTables(ts: seq<Body>, j: nat, base: string, gap: bool)
      requires j <= |ts|
      reads this
    {
      stream == base + (Break(gap && j > 0) + Text(PElements(path, ts[..j]))) && (j > 0 ==> naked)
    }

    lemma StartTables(ts: seq<Body>, gap: bool)
      ensures VisitedTables(ts, 0, stream, gap)
    {
      assert ts[..0] == [];
      assert stream + ("" + "") == stream;
    }

    method FinishTables(ts: seq<Body>, ghost base: string, ghost was: bool)
      requires VisitedTables(ts, |ts|, base, ts != [] && BlankFirst(path, ts[0].entries, was)) && (ts == [] ==> naked == was)
      modifies this`stream, this`naked
      ensures naked && stream == base + TablesText(path, ts, was)
    {
      assert ts[..|ts|] == ts;
      Endline();
    }

    method VisitElement(ts: seq<Body>, j: nat, ghost base: string, ghost gap: bool)
      requires j < |ts| && (j == 0 ==> gap == BlankFirst(path, ts[0].entries, naked)) && VisitedTables(ts, j, base, gap)
      modifies this
      ensures path == old(path) && VisitedTables(ts, j + 1, base, gap)
      decreases ts, 0
    {
      NextTable(path, ts, j);
      ghost var before, here := Text(PElements(path, ts[..j])), Text(PTable(path, ts[j].entries, true));
      ElementConcat(base, Break(gap), before, here, j);
      if j > 0 {
        Endline();
      }
      VisitTable(ts[j].entries, true);
    }
  }

  lemma BreakOnce(base: string, b: string, gap: bool, blank: bool)
    requires b == base + Break(gap) && !(gap && blank)
    ensures b + Break(blank) == base + Break(gap || blank)
  {
  }

  lemma SubConcat(base: string, text: string, here: string)
    ensures base + text + ("" + here) == base + "" + (text + here)
    ensures text == "" && here == "" ==> base + text + ("\n" + here) == base + "\n" + (text + here)
  {
  }

  /** Every table and every table array with an element has a header. */
  lemma HeadedNode(path: seq<Key>, n: Node)
    requires path != [] && !n.Leaf?
    ensures Text(PNode(path, n)) == "" <==> n == Tables([])
  {
    TextEmpty(PNode(path, n));
    if n.Table? {
      assert |PHeader(path, false)| == 1;
    } else if n.elems != [] {
      assert |PHeader(path, true)| == 1;
      assert |PTable(path, n.elems[0].entries, true)| > 0;
    }
  }

  /** Whether a line end comes first can be told before the table is visited. */
  lemma BlankOrGap(path: seq<Key>, es: seq<Entry>, inArray: bool, naked: bool)
    ensures BlankFirst(path, es, naked) <==> (path == [] && !naked && es == []) || GapFirst(PHeader(path, inArray) + PItems(path, es), es, naked)
    ensures PTable(path, es, inArray) == [] && !naked ==> BlankFirst(path, es, naked)
  {
    if PTable(path, es, inArray) == [] && es != [] {
      NoItems(path, es);
      assert |PSubs(path, es)| == 0;
      assert |PNode(path + [es[0].key], es[0].node)| == 0;
      HeadedNode(path + [es[0].key], es[0].node);
    }
  }

  lemma ElementConcat(base: string, lead: string, before: string, here: string, j: nat)
    requires j == 0 ==> before == ""
    ensures j > 0 ==> base + (lead + before) + ("" + here) == base + (lead + (before + here))
    ensures j == 0 ==> base + ("" + before) + (lead + here) == base + (lead + (before + here))
  {
  }

  /** Nothing has been written when an array of no tables comes first, so that its line end is. */
  predicate GapFirst(before: seq<Printed>, es: seq<Entry>, naked: bool)
  {
    before == [] && !naked && es != [] && es[0].node == Tables([])
  }

  function TablesText(path: seq<Key>, ts: seq<Body>, naked: bool): string
  {
    Break(if ts == [] then !naked else BlankFirst(path, ts[0].entries, naked)) + Text(PElements(path, ts))
  }

  function NodeText(path: seq<Key>, n: Node, naked: bool): string
  {
    Break(n == Tables([]) && !naked) + Text(PNode(path, n))
  }

  predicate NoLeaf(es: seq<Entry>) { forall i :: 0 <= i < |es| ==> !es[i].node.Leaf? }

  lemma {:induction false} NoItems(path: seq<Key>, es: seq<Entry>)
    ensures PItems(path, es) == [] ==> NoLeaf(es)
    decreases es
  {
    if es != [] && PItems(path, es) == [] {
      NoItems(path, es[1..]);
      assert forall i :: 1 <= i < |es| ==> es[i] == es[1..][i - 1];
    }
  }

  lemma ItemConcat(base: string, text: string, tabs: nat, k: Key, v: Value)
    ensures base + text + Tabs(tabs) + KeyText(k) + " = " + ValueText(v) + "\n" == base + (text + Text([Printed(tabs, Item([k], v))]))
  {
    TextOne(Printed(tabs, Item([k], v)));
    PathOne(k);
    ItemStrings(base, text, Tabs(tabs), KeyText(k), ValueText(v));
  }

  lemma PathOne(k: Key)
    ensures PathText([k]) == KeyText(k)
  {
  }

  lemma ItemStrings(base: string, text: string, tabs: string, k: string, v: string)
    ensures base + text + tabs + k + " = " + v + "\n" == base + (text + (tabs + (k + " = " + v) + "\n"))
  {
  }

  lemma NextItem(header: seq<Printed>, path: seq<Key>, es: seq<Entry>, i: nat)
    requires i < |es|
    ensures Text(header + PItems(path, es[..i + 1])) == Text(header + PItems(path, es[..i])) + Text(PItem(|path|, es[i]))
  {
    ItemsSnoc(path, es, i);
    Assoc(header, PItems(path, es[..i]), PItem(|path|, es[i]));
    TextConcat(header + PItems(path, es[..i]), PItem(|path|, es[i]));
  }

  lemma NextSub(before: seq<Printed>, path: seq<Key>, es: seq<Entry>, i: nat)
    requires i < |es|
    ensures es[i].node.Leaf? ==> before + PSubs(path, es[..i + 1]) == before + PSubs(path, es[..i])
    ensures Text(before + PSubs(path, es[..i + 1])) == Text(before + PSubs(path, es[..i])) + Text(PNode(path + [es[i].key], es[i].node))
  {
    SubsSnoc(path, es, i);
    Assoc(before, PSubs(path, es[..i]), PNode(path + [es[i].key], es[i].node));
    TextConcat(before + PSubs(path, es[..i]), PNode(path + [es[i].key], es[i].node));
    assert PSubs(path, es[..i]) + [] == PSubs(path, es[..i]);
  }

  lemma NextTable(path: seq<Key>, ts: seq<Body>, j: nat)
    requires j < |ts|
    ensures Text(PElements(path, ts[..j + 1])) == Text(PElements(path, ts[..j])) + Text(PTable(path, ts[j].entries, true))
  {
    ElementsSnoc(path, ts, j);
    TextConcat(PElements(path, ts[..j]), PTable(path, ts[j].entries, true));
  }

  lemma TextEmpty(ps: seq<Printed>)
    ensures Text(ps) == "" <==> ps == []
  {
  }

  // ---- writer and parser together ----

  /** parse_table. */
  method TakeHeader(s: string, p: nat) returns (r: Read)
    requires p < |s|
    ensures r == ReadHeader(s, p)
  {
    var inArray := p + 1 < |s| && s[p + 1] == '[';
    var q := if inArray then p + 2 else p + 1;
    if q == |s| || s[q] == ']' {
      return Unreadable;
    }
    var keys := ParseKey(s, q, ']');
    r := HeaderBy(s, keys, inArray);
  }

  /** parse_key_value. */
  method TakeItem(s: string, p: nat) returns (r: Read)
    requires p <= |s|
    ensures r == ReadItem(s, p)
  {
    var keys := ParseKey(s, p, '=');
    r := TakeValue(s, keys);
  }

  method TakeValue(s: string, keys: Parsed<seq<Key>>) returns (r: Read)
    ensures r == ReadItemBy(s, keys, ValueReader(s))
  {
    if keys.Fail? || keys.value == [] || !At(s, keys.next, "=") {
      return Unreadable;
    }
    var i := SkipBlanks(s, keys.next + 1);
    var v := ReadValue(s, i);
    assert ValueReader(s)(i) == v;
    r := if v.Fail? || !EndOfLine(s, v.next) then Unreadable else Got(Item(keys.value, v.value));
  }

  /** One round of the loop in parse(), up to the change it makes to the tables. */
  method TakeLine(s: string) returns (r: Read)
    ensures r == ReadLine(s)
  {
    var p := SkipBlanks(s, 0);
    if p == |s| || s[p] == '#' {
      r := Got(Blank);
    } else if s[p] == '[' {
      r := TakeHeader(s, p);
    } else {
      r := TakeItem(s, p);
    }
  }

  /** The loop of parse(); of a written tree it makes that tree, as far as the text shows it. */
  method Parse(text: string) returns (st: State)
    ensures forall es | GoodTree(es) && text == WrittenText(es) :: st.State? && st.root == Ordered(es)
    ensures st.State? ==> exists lines :: AllUsable(lines) && TextMeans(text, 0, lines) && Run([], [], lines) == st
    ensures st == ParseText(text)
  {
    st := ParseLines(text);
    if st.State? {
      ParsedMeaning(text);
    }
    forall es | GoodTree(es) && text == WrittenText(es)
      ensures st.State? && st.root == Ordered(es)
    {
      RoundTrip(es);
    }
  }

  method ParseLines(text: string) returns (st: State)
    ensures st == ParseText(text)
  {
    var root, cur, i := [], [], 0;
    while true
      invariant 0 <= i <= |text| && ParseTextBy(text, i, root, cur, ReadLine) == ParseText(text)
      decreases |text| - i
    {
      var next := NextLine(text, i);
      if next.End? {
        return State(root, cur);
      }
      var r := TakeLine(next.line);
      if r.Unreadable? {
        return Failed;
      }
      var step := Step(root, cur, r.line);
      if step.Failed? {
        return Failed;
      }
      root, cur, i := step.root, step.cur, next.next;
    }
  }

  /** Writing a tree and parsing the text gives the tree back, if and only if no table array is empty. */
  method WriteAndParse(es: seq<Entry>) returns (text: string, st: State)
    requires GoodTree(es)
    ensures text == WrittenText(es) && st.State? && (ViewOf(st.root) == ViewOf(es) <==> Full(es))
  {
    var w := new Writer();
    w.VisitTable(es, false);
    text := w.stream;
    RoundTrip(es);
    st := Parse(text);
  }
}
