/** The text of TOML keys and values as cpptoml writes them, and the way its parser reads them back. */
module TomlText {

  type Key = string

  const BACKSPACE: char := 8 as char
  const FORMFEED: char := 12 as char

  /** What a parsing step yields: nothing, or a value and the position after it. */
  datatype Parsed<T> = Fail | Ok(value: T, next: nat)

  // ---- text at a position ----

  predicate At(s: string, i: nat, t: string) { i + |t| <= |s| && s[i..i + |t|] == t }

  lemma AtChar(s: string, i: nat, t: string, k: nat)
    requires At(s, i, t) && k < |t|
    ensures s[i + k] == t[k]
  {
    assert s[i + k] == s[i..i + |t|][k];
  }

  lemma AtSplit(s: string, i: nat, a: string, b: string)
    requires At(s, i, a + b)
    ensures At(s, i, a) && At(s, i + |a|, b)
  {
    var t := a + b;
    assert s[i..i + |a|] == s[i..i + |t|][..|a|] == a;
    assert s[i + |a|..i + |a| + |b|] == s[i..i + |t|][|a|..] == b;
  }

  predicate IsBlank(c: char) { c == ' ' || c == '\t' }

  /** consume_whitespace. */
  function SkipBlanks(s: string, i: nat): (j: nat)
    requires i <= |s|
    ensures i <= j <= |s| && (j < |s| ==> !IsBlank(s[j]))
    decreases |s| - i
  {
    if i < |s| && IsBlank(s[i]) then SkipBlanks(s, i + 1) else i
  }

  // ---- strings ----

  function HexDigit(d: nat): char
    requires d < 16
  {
    "0123456789abcdef"[d]
  }

  /** One character as escape_string writes it; other control characters get an unpadded code. */
  function Escape(c: char): (t: string)
    ensures t != ""
  {
    if c == BACKSPACE then "\\b"
    else if c == '\t' then "\\t"
    else if c == '\n' then "\\n"
    else if c == FORMFEED then "\\f"
    else if c == '\r' then "\\r"
    else if c == '"' then "\\\""
    else if c == '\\' then "\\\\"
    else if c as int <= 0x1f then
      "\\u" + if c as int < 16 then [HexDigit(c as int)] else [HexDigit(c as int / 16), HexDigit(c as int % 16)]
    else [c]
  }

  function EscapeAll(str: string): string { if str == "" then "" else Escape(str[0]) + EscapeAll(str[1..]) }

  lemma Associative(a: string, b: string, c: string)
    ensures a + (b + c) == a + b + c
  {
  }

  /** escape_string. */
  method EscapeString(str: string) returns (res: string)
    ensures res == EscapeAll(str)
  {
    res := "";
    var i := 0;
    while i < |str|
      invariant 0 <= i <= |str| && res + EscapeAll(str[i..]) == EscapeAll(str)
    {
      assert str[i..][1..] == str[i + 1..];
      Associative(res, Escape(str[i]), EscapeAll(str[i + 1..]));
      res := res + Escape(str[i]);
      i := i + 1;
    }
    assert str[|str|..] == "";
  }

  /** The escape codes of parse_escape_code, without the unicode ones. */
  function Unescape(c: char): Parsed<char>
  {
    match c
    case 'b' => Ok(BACKSPACE, 0)
    case 't' => Ok('\t', 0)
    case 'n' => Ok('\n', 0)
    case 'f' => Ok(FORMFEED, 0)
    case 'r' => Ok('\r', 0)
    case '"' => Ok('"', 0)
    case '\\' => Ok('\\', 0)
    case _ => Fail
  }

  function Prepend<T>(x: T, r: Parsed<seq<T>>): Parsed<seq<T>> { if r.Fail? then Fail else Ok([x] + r.value, r.next) }

  /** string_literal after the opening delimiter. */
  function StringBody(s: string, i: nat, delim: char): (r: Parsed<string>)
    requires i <= |s|
    ensures r.Ok? ==> i < r.next <= |s|
    decreases |s| - i
  {
    if i == |s| then Fail
    else if delim == '"' && s[i] == '\\' then
      if i + 1 == |s| || Unescape(s[i + 1]).Fail? then Fail
      else Prepend(Unescape(s[i + 1]).value, StringBody(s, i + 2, delim))
    else if s[i] == delim then Ok("", SkipBlanks(s, i + 1))
    else Prepend(s[i], StringBody(s, i + 1, delim))
  }

  /** What was read before, in front of what is still to be read. */
  function Continue<T>(done: seq<T>, r: Parsed<seq<T>>): Parsed<seq<T>> { if r.Fail? then Fail else Ok(done + r.value, r.next) }

  lemma ContinueMore<T>(done: seq<T>, x: T, r: Parsed<seq<T>>)
    ensures Continue(done + [x], r) == Continue(done, Prepend(x, r))
  {
    if r.Ok? {
      assert done + [x] + r.value == done + ([x] + r.value);
    }
  }

  lemma ContinueEnds<T>(done: seq<T>, r: Parsed<seq<T>>)
    ensures Continue([], r) == r
    ensures r.Ok? && r.value == [] ==> Continue(done, r) == Ok(done, r.next)
    ensures r.Ok? && |r.value| == 1 ==> Continue(done, r) == Ok(done + [r.value[0]], r.next)
  {
    if r.Ok? {
      assert [] + r.value == r.value;
      assert r.value == [] ==> done + r.value == done;
      assert |r.value| == 1 ==> r.value == [r.value[0]];
    }
  }

  /** The loop of string_literal, entered after the opening delimiter. */
  method StringLiteral(s: string, i: nat, delim: char) returns (r: Parsed<string>)
    requires i <= |s|
    ensures r == StringBody(s, i, delim)
  {
    var val, it := "", i;
    ContinueEnds(val, StringBody(s, it, delim));
    while it < |s|
      invariant i <= it <= |s| && Continue(val, StringBody(s, it, delim)) == StringBody(s, i, delim)
    {
      if delim == '"' && s[it] == '\\' {
        if it + 1 == |s| || Unescape(s[it + 1]).Fail? {
          return Fail;
        }
        ContinueMore(val, Unescape(s[it + 1]).value, StringBody(s, it + 2, delim));
        val, it := val + [Unescape(s[it + 1]).value], it + 2;
      } else if s[it] == delim {
        ContinueEnds(val, StringBody(s, it, delim));
        return Ok(val, SkipBlanks(s, it + 1));
      } else {
        ContinueMore(val, s[it], StringBody(s, it + 1, delim));
        val, it := val + [s[it]], it + 1;
      }
    }
    r := Fail;
  }

  /** Characters the writer escapes in a way the parser understands. */
  predicate Plain(str: string)
  {
    forall i :: 0 <= i < |str| ==> str[i] as int > 0x1f || str[i] in "\t\n\r" || str[i] == BACKSPACE || str[i] == FORMFEED
  }

  /** Reading one escaped character gives it back. */
  lemma UnescapeOne(s: string, i: nat, c: char)
    requires At(s, i, Escape(c)) && Plain([c]) && i + |Escape(c)| < |s|
    ensures StringBody(s, i, '"') == Prepend(c, StringBody(s, i + |Escape(c)|, '"'))
  {
    assert [c][0] == c;
    AtChar(s, i, Escape(c), 0);
    if |Escape(c)| == 2 {
      AtChar(s, i, Escape(c), 1);
    }
  }

  lemma EscapeHead(str: string)
    requires str != ""
    ensures EscapeAll(str) == Escape(str[0]) + EscapeAll(str[1..])
    ensures EscapeAll(str) + "\"" == Escape(str[0]) + (EscapeAll(str[1..]) + "\"")
  {
  }

  /** The first character of an escaped string, and where the rest begins. */
  lemma StringHead(str: string, s: string, i: nat) returns (k: nat)
    requires str != "" && Plain(str) && At(s, i, EscapeAll(str) + "\"")
    ensures i < k <= |s| && At(s, k, EscapeAll(str[1..]) + "\"")
    ensures StringBody(s, i, '"') == Prepend(str[0], StringBody(s, k, '"'))
    ensures k + |EscapeAll(str[1..])| == i + |EscapeAll(str)|
  {
    k := i + |Escape(str[0])|;
    EscapeHead(str);
    SplitHere(s, i, Escape(str[0]), EscapeAll(str[1..]) + "\"", k);
    UnescapeOne(s, i, str[0]);
  }

  lemma SplitHere(s: string, i: nat, a: string, b: string, k: nat)
    requires At(s, i, a + b) && a != "" && b != "" && k == i + |a|
    ensures At(s, i, a) && At(s, k, b) && i < k < |s|
  {
    AtSplit(s, i, a, b);
  }

  /** Whatever follows the closing quote, an escaped string reads back as itself. */
  lemma {:induction false} StringReadsBack(str: string, s: string, i: nat, e: nat)
    requires Plain(str) && At(s, i, EscapeAll(str) + "\"") && e == i + |EscapeAll(str)| + 1
    ensures StringBody(s, i, '"') == Ok(str, SkipBlanks(s, e))
    decreases str
  {
    if str == "" {
      AtChar(s, i, "\"", 0);
    } else {
      var k := StringHead(str, s, i);
      StringReadsBack(str[1..], s, k, e);
      assert str == [str[0]] + str[1..];
    }
  }

  // ---- keys ----

  predicate BareChar(c: char) { 'A' <= c <= 'Z' || 'a' <= c <= 'z' || '0' <= c <= '9' || c == '_' || c == '-' }

  predicate Bare(k: Key) { forall i :: 0 <= i < |k| ==> BareChar(k[i]) }

  function Quoted(str: string): string { "\"" + EscapeAll(str) + "\"" }

  /** A key as both header and item writers print it. */
  function KeyText(k: Key): string { if Bare(k) then k else Quoted(k) }

  predicate EndsKey(c: char) { c == '.' || c == '=' || c == ']' }

  /** Where a bare key stops. */
  function KeyEnd(s: string, i: nat): (e: nat)
    requires i <= |s|
    ensures i <= e <= |s| && (e < |s| ==> EndsKey(s[e]))
    decreases |s| - i
  {
    if i < |s| && !EndsKey(s[i]) then KeyEnd(s, i + 1) else i
  }

  /** The last position from e back to i that is no blank; i itself if there is none. */
  function TrimBack(s: string, i: nat, e: nat): (k: nat)
    requires i <= e < |s|
    ensures i <= k <= e
    decreases e - i
  {
    if e != i && IsBlank(s[e]) then TrimBack(s, i, e - 1) else e
  }

  /** Neither a comment sign nor blanks nor brackets. */
  predicate AllowedInBare(key: string)
  {
    key == "" || (key[0] != '#' && !IsBlank(key[0]) && key[0] != '[' && key[0] != ']' && AllowedInBare(key[1..]))
  }

  lemma {:induction false} BareIsAllowed(k: Key)
    requires Bare(k)
    ensures AllowedInBare(k)
    decreases k
  {
    if k != "" {
      assert BareChar(k[0]);
      BareIsAllowed(k[1..]);
    }
  }

  /** parse_bare_key on [i, e). */
  function BareKey(s: string, i: nat, e: nat): (r: Parsed<Key>)
    requires i <= e <= |s|
    ensures r.Ok? ==> i < r.next == e
  {
    if i == e then Fail
    else
      var key := s[i..TrimBack(s, i, e - 1) + 1];
      if AllowedInBare(key) then Ok(key, e) else Fail
  }

  /** parse_simple_key. */
  function SimpleKey(s: string, i: nat): (r: Parsed<Key>)
    requires i <= |s|
    ensures r.Ok? ==> i < r.next <= |s|
  {
    var p := SkipBlanks(s, i);
    if p == |s| then Fail
    else if s[p] == '"' || s[p] == '\'' then StringBody(s, p + 1, s[p])
    else BareKey(s, p, KeyEnd(s, p))
  }

  /** parse_key: keys joined by dots up to the stop character, for a given way to read one key. */
  function KeysBy(s: string, i: nat, stop: char, read: nat -> Parsed<Key>): (r: Parsed<seq<Key>>)
    requires i <= |s|
    ensures r.Ok? ==> i < r.next <= |s| && (r.next < |s| ==> s[r.next] == stop)
    decreases |s| - i
  {
    if i == |s| || s[i] == stop || read(i).Fail? || !(i < read(i).next <= |s|) then Fail
    else
      var j := SkipBlanks(s, read(i).next);
      if j == |s| || s[j] == stop then Ok([read(i).value], j)
      else if s[j] != '.' then Fail
      else Prepend(read(i).value, KeysBy(s, j + 1, stop, read))
  }

  /** How the parser reads one key of the line s. */
  function KeyReader(s: string): nat -> Parsed<Key> { (i: nat) => if i <= |s| then SimpleKey(s, i) else Fail }

  function KeyPath(s: string, i: nat, stop: char): (r: Parsed<seq<Key>>)
    requires i <= |s|
    ensures r.Ok? ==> i < r.next <= |s| && (r.next < |s| ==> s[r.next] == stop)
  {
    KeysBy(s, i, stop, KeyReader(s))
  }

  /** parse_simple_key at work. */
  method ParseSimpleKey(s: string, i: nat) returns (r: Parsed<Key>)
    requires i <= |s|
    ensures r == SimpleKey(s, i)
  {
    var p := SkipBlanks(s, i);
    if p == |s| {
      r := Fail;
    } else if s[p] == '"' || s[p] == '\'' {
      r := StringLiteral(s, p + 1, s[p]);
    } else {
      r := BareKey(s, p, KeyEnd(s, p));
    }
  }

  /** The loop of parse_key. */
  method ParseKey(s: string, i: nat, stop: char) returns (r: Parsed<seq<Key>>)
    requires i <= |s|
    ensures r == KeyPath(s, i, stop)
  {
    var parts, it := [], i;
    ghost var read := KeyReader(s);
    ContinueEnds(parts, KeysBy(s, it, stop, read));
    while it < |s| && s[it] != stop
      invariant i <= it <= |s| && Continue(parts, KeysBy(s, it, stop, read)) == KeysBy(s, i, stop, read)
    {
      var part := ParseSimpleKey(s, it);
      assert read(it) == part;
      if part.Fail? {
        return Fail;
      }
      it := SkipBlanks(s, part.next);
      if it == |s| || s[it] == stop {
        return Ok(parts + [part.value], it);
      }
      if s[it] != '.' {
        return Fail;
      }
      ContinueMore(parts, part.value, KeysBy(s, it + 1, stop, read));
      parts, it := parts + [part.value], it + 1;
    }
    r := Fail;
  }

  function Join(texts: seq<string>, sep: string): string
  {
    if texts == [] then "" else if |texts| == 1 then texts[0] else texts[0] + sep + Join(texts[1..], sep)
  }

  /** A dotted path as the header writer prints it. */
  function PathText(path: seq<Key>): string { Join(KeyTexts(path), ".") }

  function KeyTexts(path: seq<Key>): seq<string> { seq(|path|, i requires 0 <= i < |path| => KeyText(path[i])) }

  predicate GoodKey(k: Key) { k != "" && Plain(k) }

  predicate GoodPath(path: seq<Key>) { path != [] && forall i :: 0 <= i < |path| ==> GoodKey(path[i]) }

  /** Only blanks lie between e and j. */
  predicate BlanksTo(s: string, e: nat, j: nat) { e <= j <= |s| && forall i :: e <= i < j ==> IsBlank(s[i]) }

  lemma {:induction false} SkipsTo(s: string, e: nat, j: nat)
    requires BlanksTo(s, e, j) && (j < |s| ==> !IsBlank(s[j]))
    ensures SkipBlanks(s, e) == j
    decreases j - e
  {
    if e < j {
      SkipsTo(s, e + 1, j);
    }
  }

  lemma {:induction false} KeyEndsAt(s: string, i: nat, j: nat)
    requires i <= j < |s| && EndsKey(s[j]) && forall k :: i <= k < j ==> !EndsKey(s[k])
    ensures KeyEnd(s, i) == j
    decreases j - i
  {
    if i < j {
      KeyEndsAt(s, i + 1, j);
    }
  }

  lemma {:induction false} TrimsTo(s: string, i: nat, e: nat, j: nat)
    requires i < e <= j <= |s| && BlanksTo(s, e, j) && !IsBlank(s[e - 1])
    ensures TrimBack(s, i, j - 1) == e - 1
    decreases j - e
  {
    if e < j {
      TrimsTo(s, i, e, j - 1);
    }
  }

  /** A bare key, with blanks after it. */
  lemma BareReadsBack(k: Key, s: string, i: nat, e: nat, j: nat)
    requires Bare(k) && k != "" && At(s, i, k) && e == i + |k| && BlanksTo(s, e, j) && j < |s| && EndsKey(s[j])
    ensures SimpleKey(s, i) == Ok(k, j)
  {
    forall m | i <= m < e
      ensures s[m] == k[m - i] && BareChar(s[m])
    {
      AtChar(s, i, k, m - i);
    }
    assert SkipBlanks(s, i) == i;
    KeyEndsAt(s, i, j);
    TrimsTo(s, i, e, j);
    BareIsAllowed(k);
    assert s[i..e] == k;
  }

  /** Any key: quoted if need be. */
  lemma KeyReadsBack(k: Key, s: string, i: nat, e: nat, j: nat)
    requires GoodKey(k) && At(s, i, KeyText(k)) && e == i + |KeyText(k)|
    requires BlanksTo(s, e, j) && j < |s| && EndsKey(s[j])
    ensures SimpleKey(s, i) == Ok(k, j) && SkipBlanks(s, j) == j && s[i] != ']' && s[i] != '=' && s[i] != '['
    ensures !IsBlank(s[i]) && s[i] != '#'
  {
    AtChar(s, i, KeyText(k), 0);
    if Bare(k) {
      BareReadsBack(k, s, i, e, j);
    } else {
      QuotedReadsBack(k, s, i, e);
      assert SkipBlanks(s, i) == i;
      SkipsTo(s, e, j);
    }
  }

  lemma QuotedReadsBack(str: string, s: string, i: nat, e: nat)
    requires Plain(str) && At(s, i, Quoted(str)) && e == i + |Quoted(str)|
    ensures s[i] == '"' && StringBody(s, i + 1, '"') == Ok(str, SkipBlanks(s, e))
  {
    assert Quoted(str) == "\"" + (EscapeAll(str) + "\"");
    AtSplit(s, i, "\"", EscapeAll(str) + "\"");
    AtChar(s, i, "\"", 0);
    StringReadsBack(str, s, i + 1, e);
  }

  lemma JoinHead(texts: seq<string>, sep: string, s: string, i: nat, d: nat)
    requires |texts| > 1 && At(s, i, Join(texts, sep)) && d == i + |texts[0]|
    ensures At(s, i, texts[0]) && At(s, d, sep) && At(s, d + |sep|, Join(texts[1..], sep))
    ensures |Join(texts, sep)| == |texts[0]| + |sep| + |Join(texts[1..], sep)|
  {
    var tail := Join(texts[1..], sep);
    assert Join(texts, sep) == texts[0] + (sep + tail);
    AtSplit(s, i, texts[0], sep + tail);
    AtSplit(s, d, sep, tail);
  }

  /** The keys of a path are read one after the other, with dots between them, up to j. */
  ghost predicate Chain(path: seq<Key>, s: string, i: nat, j: nat, read: nat -> Parsed<Key>)
    decreases path
  {
    && path != [] && i < |s| && s[i] != ']' && s[i] != '=' && read(i).Ok? && read(i).value == path[0]
    && var d := read(i).next;
       && i < d < |s| && !IsBlank(s[d])
       && if |path| == 1 then d == j else s[d] == '.' && Chain(path[1..], s, d + 1, j, read)
  }

  lemma {:induction false} ChainReadsBack(path: seq<Key>, s: string, i: nat, j: nat, stop: char, read: nat -> Parsed<Key>)
    requires Chain(path, s, i, j, read) && j < |s| && s[j] == stop && (stop == '=' || stop == ']')
    ensures KeysBy(s, i, stop, read) == Ok(path, j)
    decreases path
  {
    if |path| == 1 {
      assert path == [path[0]];
    } else {
      ChainReadsBack(path[1..], s, read(i).next + 1, j, stop, read);
      assert path == [path[0]] + path[1..];
    }
  }

  /** Text t stands at i, and only blanks lie between it and what ends a key at j. */
  ghost predicate PieceAt(s: string, t: string, i: nat, j: nat)
  {
    At(s, i, t) && BlanksTo(s, i + |t|, j) && j < |s| && EndsKey(s[j])
  }

  /** A way to read keys that gets key k from text t. */
  ghost predicate ReadsPiece(s: string, read: nat -> Parsed<Key>, k: Key, t: string)
  {
    forall i: nat, j: nat {:trigger PieceAt(s, t, i, j)} ::
      PieceAt(s, t, i, j) ==> i < j && s[i] != ']' && s[i] != '=' && read(i) == Ok(k, j)
  }

  lemma KeyReaderReads(s: string, k: Key)
    requires GoodKey(k)
    ensures ReadsPiece(s, KeyReader(s), k, KeyText(k))
  {
    forall i: nat, j: nat | PieceAt(s, KeyText(k), i, j)
      ensures i < j && s[i] != ']' && s[i] != '=' && KeyReader(s)(i) == Ok(k, j)
    {
      KeyReadsBack(k, s, i, i + |KeyText(k)|, j);
    }
  }

  lemma {:induction false} TextsAreChain(path: seq<Key>, texts: seq<string>, s: string, i: nat, e: nat, j: nat, read: nat -> Parsed<Key>)
    requires path != [] && |texts| == |path| && forall m :: 0 <= m < |path| ==> ReadsPiece(s, read, path[m], texts[m])
    requires At(s, i, Join(texts, ".")) && e == i + |Join(texts, ".")|
    requires BlanksTo(s, e, j) && j < |s| && (s[j] == '=' || s[j] == ']')
    ensures Chain(path, s, i, j, read)
    decreases path
  {
    assert ReadsPiece(s, read, path[0], texts[0]);
    if |path| == 1 {
      assert PieceAt(s, texts[0], i, j);
    } else {
      var d := i + |texts[0]|;
      JoinHead(texts, ".", s, i, d);
      AtChar(s, d, ".", 0);
      assert PieceAt(s, texts[0], i, d);
      TextsAreChain(path[1..], texts[1..], s, d + 1, e, j, read);
    }
  }

  /** A dotted path up to its stop character. */
  lemma PathReadsBack(path: seq<Key>, s: string, i: nat, e: nat, j: nat, stop: char)
    requires GoodPath(path) && At(s, i, PathText(path)) && e == i + |PathText(path)|
    requires BlanksTo(s, e, j) && j < |s| && s[j] == stop && (stop == '=' || stop == ']')
    ensures KeyPath(s, i, stop) == Ok(path, j)
  {
    var texts := KeyTexts(path);
    forall m | 0 <= m < |path|
      ensures ReadsPiece(s, KeyReader(s), path[m], texts[m])
    {
      KeyReaderReads(s, path[m]);
    }
    PathReadsBackBy(path, texts, s, i, e, j, stop, KeyReader(s));
  }

  lemma PathReadsBackBy(path: seq<Key>, texts: seq<string>, s: string, i: nat, e: nat, j: nat, stop: char, read: nat -> Parsed<Key>)
    requires path != [] && |texts| == |path| && forall m :: 0 <= m < |path| ==> ReadsPiece(s, read, path[m], texts[m])
    requires At(s, i, Join(texts, ".")) && e == i + |Join(texts, ".")|
    requires BlanksTo(s, e, j) && j < |s| && s[j] == stop && (stop == '=' || stop == ']')
    ensures KeysBy(s, i, stop, read) == Ok(path, j)
  {
    TextsAreChain(path, texts, s, i, e, j, read);
    ChainReadsBack(path, s, i, j, stop, read);
  }

  /** What a path can begin with. */
  lemma PathStart(path: seq<Key>)
    requires GoodPath(path)
    ensures PathText(path) != ""
    ensures var c := PathText(path)[0]; !IsBlank(c) && c != ']' && c != '[' && c != '#' && c != '='
  {
    assert GoodKey(path[0]);
    KeyStart(path[0]);
    var texts := KeyTexts(path);
    assert texts[0] == KeyText(path[0]);
    assert Join(texts, ".")[0] == texts[0][0];
  }

  lemma KeyStart(k: Key)
    requires GoodKey(k)
    ensures KeyText(k) != ""
    ensures var c := KeyText(k)[0]; !IsBlank(c) && c != ']' && c != '[' && c != '#' && c != '='
  {
  }

  // ---- numbers ----

  predicate IsNumber(c: char) { '0' <= c <= '9' }

  function Digit(d: nat): char
    requires d < 10
  {
    "0123456789"[d]
  }

  function NatText(n: nat): (t: string)
    ensures t != ""
    decreases n
  {
    if n < 10 then [Digit(n)] else NatText(n / 10) + [Digit(n % 10)]
  }

  /** An integer as a stream prints it. */
  function IntText(n: int): string { if n < 0 then "-" + NatText(-n) else NatText(n) }

  /** find_if over a set of characters, up to end. */
  function RunEnd(s: string, i: nat, end: nat, ok: char -> bool): (e: nat)
    requires i <= end <= |s|
    ensures i <= e <= end
    decreases end - i
  {
    if i < end && ok(s[i]) then RunEnd(s, i + 1, end, ok) else i
  }

  lemma {:induction false} RunsTo(s: string, i: nat, e: nat, end: nat, ok: char -> bool)
    requires i <= e <= end <= |s| && (forall k :: i <= k < e ==> ok(s[k])) && (e < end ==> !ok(s[e]))
    ensures RunEnd(s, i, end, ok) == e
    decreases e - i
  {
    if i < e {
      RunsTo(s, i + 1, e, end, ok);
    }
  }

  const TIME_CHAR: char -> bool := c => IsNumber(c) || c == ':' || c == '.'
  const DATE_CHAR: char -> bool := c => IsNumber(c) || c == '-'
  const DATETIME_CHAR: char -> bool := c => IsNumber(c) || c in "TZ:-+."
  const NUMBER_CHAR: char -> bool := c => IsNumber(c) || c in "_.eE-+xob"

  /** is_time. */
  predicate IsTime(s: string, i: nat, end: nat)
    requires i <= end <= |s|
  {
    var len := RunEnd(s, i, end, TIME_CHAR) - i;
    len >= 8 && s[i + 2] == ':' && s[i + 5] == ':' && (len > 8 ==> s[i + 8] == '.' && len > 9)
  }

  /** find_end_of_date. */
  function DateEnd(s: string, i: nat, end: nat): (e: nat)
    requires i <= end <= |s|
    ensures i <= e <= end
  {
    var d := RunEnd(s, i, end, DATE_CHAR);
    var d' := if d < end && s[d] == ' ' && d + 1 < end && IsNumber(s[d + 1]) then d + 1 else d;
    RunEnd(s, d', end, DATETIME_CHAR)
  }

  /** date_type finds a date or a date with a time. */
  predicate IsDate(s: string, i: nat, end: nat)
    requires i <= end <= |s|
  {
    var e := DateEnd(s, i, end);
    var len := e - i;
    && len >= 10 && s[i + 4] == '-' && s[i + 7] == '-'
    && (len == 10 || (len >= 19 && (s[i + 10] == 'T' || s[i + 10] == ' ') && IsTime(s, i + 11, e)))
  }

  /** The types of values; Other stands for dates, times, floats, inline tables and unreadable text. */
  datatype Type = StringType | IntType | BoolType | ArrayType | Other

  predicate Word3(s: string, i: nat, a: char, b: char, c: char) { i + 2 < |s| && s[i] == a && s[i + 1] == b && s[i + 2] == c }

  /** determine_number_type. */
  function NumberType(s: string, i: nat, end: nat): Type
    requires i < end <= |s|
  {
    var c := if s[i] == '-' || s[i] == '+' then i + 1 else i;
    if c == end || s[c] == 'i' || s[c] == 'n' then Other
    else
      var e := RunEnd(s, c, end, IsNumber);
      if e < end && s[e] == '.' then Other else IntType
  }

  /** determine_value_type. */
  function TypeAt(s: string, i: nat, end: nat): Type
    requires i <= end <= |s|
  {
    if i == end then Other
    else if s[i] == '"' || s[i] == '\'' then StringType
    else if IsTime(s, i, end) || IsDate(s, i, end) then Other
    else if IsNumber(s[i]) || s[i] == '-' || s[i] == '+' || Word3(s[..end], i, 'i', 'n', 'f') || Word3(s[..end], i, 'n', 'a', 'n') then
      NumberType(s, i, end)
    else if s[i] == 't' || s[i] == 'f' then BoolType
    else if s[i] == '[' then ArrayType
    else Other
  }

  /** eat_digits: digits with single underscores between them; the position after them. */
  function DigitsEnd(s: string, i: nat): (r: Parsed<nat>)
    requires i <= |s|
    ensures r.Ok? ==> i < r.next <= |s|
    decreases |s| - i
  {
    if i == |s| || !IsNumber(s[i]) then Fail
    else if i + 1 < |s| && s[i + 1] == '_' then
      if i + 2 == |s| || !IsNumber(s[i + 2]) then Fail else DigitsEnd(s, i + 2)
    else if i + 1 < |s| && IsNumber(s[i + 1]) then DigitsEnd(s, i + 1)
    else Ok(0, i + 1)
  }

  /** The digits of [i, e) without underscores, as a number. */
  function DigitsValue(s: string, i: nat, e: nat): nat
    requires i <= e <= |s|
    decreases e - i
  {
    if i == e then 0
    else if IsNumber(s[e - 1]) then 10 * DigitsValue(s, i, e - 1) + (s[e - 1] as int - '0' as int)
    else DigitsValue(s, i, e - 1)
  }

  const INT64_MIN: int := -0x8000_0000_0000_0000
  const INT64_MAX: int := 0x7FFF_FFFF_FFFF_FFFF

  datatype Value = Str(str: string) | Int(n: int) | Bool(b: bool) | Arr(elems: seq<Value>)

  /** find_end_of_number. */
  function NumberEnd(s: string, i: nat): nat
    requires i <= |s|
  {
    var e := RunEnd(s, i, |s|, NUMBER_CHAR);
    if Word3(s, e, 'i', 'n', 'f') || Word3(s, e, 'n', 'a', 'n') then e + 3 else e
  }

  /** parse_number for decimal integers; other bases and floats are not read here. */
  function ParseNumber(s: string, i: nat): (r: Parsed<Value>)
    requires i < |s|
    ensures r.Ok? ==> i < r.next <= |s|
  {
    var checkEnd := NumberEnd(s, i);
    if s[i] == '0' && i + 1 != checkEnd && i + 1 < |s| && s[i + 1] in "xob" then Fail
    else
      var j := if s[i] == '-' || s[i] == '+' then i + 1 else i;
      if j < |s| && s[j] == '0' && j + 1 != checkEnd && j + 1 < |s| && s[j + 1] != '.' then Fail
      else if Word3(s, j, 'i', 'n', 'f') || Word3(s, j, 'n', 'a', 'n') || DigitsEnd(s, j).Fail? then Fail
      else
        var e := DigitsEnd(s, j).next;
        var n := if s[i] == '-' then -(DigitsValue(s, j, e) as int) else DigitsValue(s, j, e);
        if (e < |s| && s[e] in ".eE") || n < INT64_MIN || n > INT64_MAX then Fail else Ok(Int(n), e)
  }

  /** What follows a value on its line. */
  predicate Stops(s: string, e: nat) { e == |s| || (e < |s| && (s[e] == ',' || s[e] == ']')) }

  lemma {:induction false} NatTextDigits(n: nat, s: string, i: nat, e: nat)
    requires At(s, i, NatText(n)) && e == i + |NatText(n)|
    ensures (forall k :: i <= k < e ==> IsNumber(s[k])) && DigitsValue(s, i, e) == n
    decreases n
  {
    AtChar(s, i, NatText(n), |NatText(n)| - 1);
    if n >= 10 {
      AtSplit(s, i, NatText(n / 10), [Digit(n % 10)]);
      NatTextDigits(n / 10, s, i, e - 1);
      DigitAdds(s, i, e, n % 10);
    } else {
      DigitAdds(s, i, e, n);
    }
  }

  lemma DigitAdds(s: string, i: nat, e: nat, d: nat)
    requires i < e <= |s| && d < 10 && s[e - 1] == Digit(d)
    ensures IsNumber(s[e - 1]) && DigitsValue(s, i, e) == 10 * DigitsValue(s, i, e - 1) + d
  {
  }

  /** No leading zero. */
  lemma {:induction false} NatTextLead(n: nat)
    ensures n > 0 ==> NatText(n)[0] != '0'
    ensures |NatText(n)| > 1 ==> n > 0
    decreases n
  {
    if n >= 10 {
      NatTextLead(n / 10);
      assert NatText(n)[0] == NatText(n / 10)[0];
    }
  }

  /** Digits up to e are eaten exactly. */
  lemma {:induction false} EatsTo(s: string, i: nat, e: nat)
    requires i < e <= |s| && (forall k :: i <= k < e ==> IsNumber(s[k])) && (e < |s| ==> !IsNumber(s[e]) && s[e] != '_')
    ensures DigitsEnd(s, i) == Ok(0, e)
    decreases e - i
  {
    assert IsNumber(s[i]);
    if i + 1 < e {
      assert IsNumber(s[i + 1]);
      EatsTo(s, i + 1, e);
    }
  }

  /** An optional minus and digits, from j to e, with a stop after them. */
  ghost predicate Numeral(s: string, i: nat, j: nat, e: nat)
  {
    && i <= j < e <= |s| && j == (if s[i] == '-' then i + 1 else i) && Stops(s, e)
    && (forall k :: j <= k < e ==> IsNumber(s[k])) && (e - j > 1 ==> s[j] != '0')
  }

  lemma IntNumeral(n: int, s: string, i: nat, e: nat) returns (j: nat)
    requires At(s, i, IntText(n)) && e == i + |IntText(n)| && Stops(s, e)
    ensures Numeral(s, i, j, e) && (n < 0 <==> s[i] == '-') && n == if n < 0 then -(DigitsValue(s, j, e) as int) else DigitsValue(s, j, e)
  {
    if n < 0 {
      AtSplit(s, i, "-", NatText(-n));
      AtChar(s, i, "-", 0);
      j := i + 1;
      NatTextDigits(-n, s, j, e);
      NatTextLead(-n);
      AtChar(s, j, NatText(-n), 0);
    } else {
      j := i;
      NatTextDigits(n, s, j, e);
      NatTextLead(n);
      AtChar(s, j, NatText(n), 0);
      assert IsNumber(s[i]);
    }
  }

  /** A numeral is neither a time nor a date. */
  lemma NumeralType(s: string, i: nat, j: nat, e: nat, end: nat)
    requires Numeral(s, i, j, e) && e <= end <= |s|
    ensures TypeAt(s, i, end) == IntType
  {
    assert IsNumber(s[j]);
    NotTime(s, i, j, e, end);
    NotDate(s, i, j, e, end);
    RunsTo(s, j, e, end, IsNumber);
  }

  lemma NotTime(s: string, i: nat, j: nat, e: nat, end: nat)
    requires Numeral(s, i, j, e) && e <= end <= |s|
    ensures !IsTime(s, i, end)
  {
    if j > i {
      RunsTo(s, i, i, end, TIME_CHAR);
    } else {
      RunsTo(s, i, e, end, TIME_CHAR);
      if e - i >= 8 {
        assert IsNumber(s[i + 2]);
      }
    }
  }

  lemma NotDate(s: string, i: nat, j: nat, e: nat, end: nat)
    requires Numeral(s, i, j, e) && e <= end <= |s|
    ensures !IsDate(s, i, end)
  {
    RunsTo(s, i, e, end, DATE_CHAR);
    RunsTo(s, e, e, end, DATETIME_CHAR);
    if e - i >= 10 {
      assert IsNumber(s[i + 4]);
    }
  }

  /** A numeral in range is read as its number. */
  lemma NumeralReads(s: string, i: nat, j: nat, e: nat, n: int)
    requires Numeral(s, i, j, e) && INT64_MIN <= n <= INT64_MAX
    requires n == if s[i] == '-' then -(DigitsValue(s, j, e) as int) else DigitsValue(s, j, e)
    ensures ParseNumber(s, i) == Ok(Int(n), e)
  {
    assert IsNumber(s[j]);
    EatsTo(s, j, e);
    assert forall k :: i <= k < e ==> NUMBER_CHAR(s[k]);
    RunsTo(s, i, e, |s|, NUMBER_CHAR);
    if i + 1 < e {
      assert IsNumber(s[i + 1]);
    }
    if j + 1 < e {
      assert s[j] != '0';
    }
  }

  // ---- values ----

  function TypeOf(v: Value): Type
  {
    match v
    case Str(_) => StringType
    case Int(_) => IntType
    case Bool(_) => BoolType
    case Arr(_) => ArrayType
  }

  /**
   * parse_value_array and parse_object_array from the first element on, for a given way to read one element. Where the
   * parser would go on to the next line, this one fails.
   */
  function ElementsBy(s: string, p: nat, kind: Type, read: nat -> Parsed<Value>): (r: Parsed<seq<Value>>)
    requires p <= |s|
    ensures r.Ok? ==> p < r.next <= |s|
    decreases |s| - p
  {
    if p == |s| then Fail
    else if s[p] == ']' then Ok([], p + 1)
    else if read(p).Fail? || !(p < read(p).next <= |s|) || TypeOf(read(p).value) != kind then Fail
    else
      var q := SkipBlanks(s, read(p).next);
      if q == |s| || s[q] == '#' then Fail
      else if s[q] != ',' then (if kind == ArrayType && s[q] != ']' then Fail else Ok([read(p).value], q + 1))
      else
        var r := SkipBlanks(s, q + 1);
        if r == |s| || s[r] == '#' then Fail else Prepend(read(p).value, ElementsBy(s, r, kind, read))
  }

  const ARRAY_STOP: char -> bool := c => c != ',' && c != ']' && c != '#'

  /** parse_array within one line. */
  function ParseArray(s: string, i: nat): (r: Parsed<Value>)
    requires i < |s|
    ensures r.Ok? ==> i < r.next <= |s|
    decreases |s| - i, 0
  {
    var p := SkipBlanks(s, i + 1);
    if p == |s| || s[p] == '#' then Fail
    else if s[p] == ']' then Ok(Arr([]), p + 1)
    else
      var kind := TypeAt(s, p, RunEnd(s, p, |s|, ARRAY_STOP));
      var r := ElementsBy(s, p, kind, (j: nat) => if i < j <= |s| then ParseValue(s, j) else Fail);
      if kind == Other || r.Fail? then Fail else Ok(Arr(r.value), r.next)
  }

  /** parse_string for strings on one line. */
  function ParseString(s: string, i: nat): (r: Parsed<Value>)
    requires i < |s|
    ensures r.Ok? ==> i < r.next <= |s|
  {
    if i + 2 < |s| && s[i + 1] == s[i] && s[i + 2] == s[i] then Fail
    else
      var r := StringBody(s, i + 1, s[i]);
      if r.Fail? then Fail else Ok(Str(r.value), r.next)
  }

  /** parse_bool. */
  function ParseBool(s: string, i: nat): (r: Parsed<Value>)
    requires i < |s|
    ensures r.Ok? ==> i < r.next <= |s|
  {
    if At(s, i, "true") then Ok(Bool(true), i + 4) else if At(s, i, "false") then Ok(Bool(false), i + 5) else Fail
  }

  /** parse_value. */
  function ParseValue(s: string, i: nat): (r: Parsed<Value>)
    requires i <= |s|
    ensures r.Ok? ==> i < r.next <= |s|
    decreases |s| - i, 1
  {
    match TypeAt(s, i, |s|)
    case StringType => ParseString(s, i)
    case IntType => ParseNumber(s, i)
    case BoolType => ParseBool(s, i)
    case ArrayType => ParseArray(s, i)
    case Other => Fail
  }

  function ValueText(v: Value): string
    decreases v
  {
    match v
    case Str(str) => Quoted(str)
    case Int(n) => IntText(n)
    case Bool(b) => if b then "true" else "false"
    case Arr(elems) => "[" + Join(ElementTexts(elems), ", ") + "]"
  }

  function ElementTexts(elems: seq<Value>): (texts: seq<string>)
    ensures |texts| == |elems|
    decreases elems
  {
    if elems == [] then [] else [ValueText(elems[0])] + ElementTexts(elems[1..])
  }

  /** 64-bit integers, strings without unusual control characters, arrays of one type throughout. */
  predicate GoodValue(v: Value)
    decreases v
  {
    match v
    case Str(str) => Plain(str)
    case Int(n) => INT64_MIN <= n <= INT64_MAX
    case Bool(_) => true
    case Arr(elems) => (forall i :: 0 <= i < |elems| ==> GoodValue(elems[i])) && forall i :: 0 <= i < |elems| ==> TypeOf(elems[i]) == TypeOf(elems[0])
  }

  predicate StartsValue(c: char) { c == '"' || IsNumber(c) || c == '-' || c == 't' || c == 'f' || c == '[' }

  lemma ValueStart(v: Value)
    ensures ValueText(v) != "" && StartsValue(ValueText(v)[0])
    ensures v.Str? ==> ValueText(v)[0] == '"'
    ensures v.Bool? ==> ValueText(v)[0] == 't' || ValueText(v)[0] == 'f'
    ensures v.Arr? ==> ValueText(v)[0] == '['
  {
    if v.Int? {
      NatStart(if v.n < 0 then -v.n else v.n);
    }
  }

  lemma {:induction false} NatStart(n: nat)
    ensures IsNumber(NatText(n)[0])
    decreases n
  {
    if n >= 10 {
      NatStart(n / 10);
      assert NatText(n)[0] == NatText(n / 10)[0];
    }
  }

  /** The first characters of a value tell its type. */
  lemma TypeReadsBack(v: Value, s: string, i: nat, e: nat, end: nat)
    requires At(s, i, ValueText(v)) && e == i + |ValueText(v)| && Stops(s, e) && i < end <= |s| && (v.Int? ==> e <= end)
    ensures TypeAt(s, i, end) == TypeOf(v)
  {
    ValueStart(v);
    AtChar(s, i, ValueText(v), 0);
    if v.Int? {
      var j := IntNumeral(v.n, s, i, e);
      NumeralType(s, i, j, e, end);
    } else if !v.Str? {
      RunsTo(s, i, i, end, TIME_CHAR);
      RunsTo(s, i, i, end, DATE_CHAR);
      RunsTo(s, i, i, end, DATETIME_CHAR);
    }
  }

  /** Text t stands at i and a value ends after it within the line. */
  ghost predicate ElementAt(s: string, t: string, i: nat) { At(s, i, t) && i + |t| < |s| && Stops(s, i + |t|) }

  /** A way to read values that gets v from text t, from position lo on. */
  ghost predicate ReadsElement(s: string, lo: nat, read: nat -> Parsed<Value>, v: Value, t: string)
  {
    && t != "" && StartsValue(t[0])
    && forall i: nat {:trigger ElementAt(s, t, i)} :: lo < i && ElementAt(s, t, i) ==> read(i) == Ok(v, i + |t|)
  }

  lemma {:induction false} ElementsReadBack(elems: seq<Value>, texts: seq<string>, s: string, lo: nat, p: nat, e: nat, kind: Type, read: nat -> Parsed<Value>)
    requires elems != [] && |texts| == |elems| && lo < p
    requires forall m :: 0 <= m < |elems| ==> TypeOf(elems[m]) == kind && ReadsElement(s, lo, read, elems[m], texts[m])
    requires At(s, p, Join(texts, ", ")) && e == p + |Join(texts, ", ")| < |s| && s[e] == ']'
    ensures ElementsBy(s, p, kind, read) == Ok(elems, e + 1)
    decreases elems
  {
    if |elems| == 1 {
      LastElement(elems[0], texts[0], s, lo, p, e, kind, read);
      assert elems == [elems[0]];
    } else {
      var d := NextElement(elems[0], texts, s, lo, p, e, read);
      assert ReadsElement(s, lo, read, elems[1], texts[1]);
      JoinStart(texts[1..]);
      AtChar(s, d + 2, Join(texts[1..], ", "), 0);
      ElementsReadBack(elems[1..], texts[1..], s, lo, d + 2, e, kind, read);
      ElementsNext(s, p, d, kind, read, elems, e + 1);
    }
  }

  lemma LastElement(v: Value, t: string, s: string, lo: nat, p: nat, e: nat, kind: Type, read: nat -> Parsed<Value>)
    requires lo < p && TypeOf(v) == kind && ReadsElement(s, lo, read, v, t) && At(s, p, t) && e == p + |t| < |s| && s[e] == ']'
    ensures ElementsBy(s, p, kind, read) == Ok([v], e + 1)
  {
    AtChar(s, p, t, 0);
    assert ElementAt(s, t, p);
    SkipsTo(s, e, e);
  }

  lemma NextElement(v: Value, texts: seq<string>, s: string, lo: nat, p: nat, e: nat, read: nat -> Parsed<Value>) returns (d: nat)
    requires |texts| > 1 && lo < p && ReadsElement(s, lo, read, v, texts[0])
    requires At(s, p, Join(texts, ", ")) && e == p + |Join(texts, ", ")| <= |s|
    ensures p < d && d + 2 <= |s| && s[p] != ']' && read(p) == Ok(v, d) && s[d] == ',' && s[d + 1] == ' '
    ensures At(s, d + 2, Join(texts[1..], ", ")) && e == d + 2 + |Join(texts[1..], ", ")|
  {
    d := p + |texts[0]|;
    JoinHead(texts, ", ", s, p, d);
    AtChar(s, p, texts[0], 0);
    AtChar(s, d, ", ", 0);
    AtChar(s, d, ", ", 1);
    assert ElementAt(s, texts[0], p);
  }

  lemma JoinStart(texts: seq<string>)
    requires texts != [] && texts[0] != ""
    ensures Join(texts, ", ") != "" && Join(texts, ", ")[0] == texts[0][0]
  {
  }

  lemma ElementsNext(s: string, p: nat, d: nat, kind: Type, read: nat -> Parsed<Value>, elems: seq<Value>, n: nat)
    requires p < d && d + 2 < |s| && s[p] != ']' && |elems| > 1 && read(p) == Ok(elems[0], d) && TypeOf(elems[0]) == kind
    requires s[d] == ',' && s[d + 1] == ' ' && !IsBlank(s[d + 2]) && s[d + 2] != '#'
    requires ElementsBy(s, d + 2, kind, read) == Ok(elems[1..], n)
    ensures ElementsBy(s, p, kind, read) == Ok(elems, n)
  {
    SkipsTo(s, d, d);
    SkipsTo(s, d + 1, d + 2);
    assert elems == [elems[0]] + elems[1..];
  }

  lemma {:induction false} ElementTextAt(elems: seq<Value>, m: nat)
    requires m < |elems|
    ensures ElementTexts(elems)[m] == ValueText(elems[m])
    decreases elems
  {
    if m > 0 {
      ElementTextAt(elems[1..], m - 1);
    }
  }

  /** How parse_array reads the elements of an array that starts at i. */
  function ElementReader(s: string, i: nat): nat -> Parsed<Value> { (j: nat) => if i < j <= |s| then ParseValue(s, j) else Fail }

  lemma ParseArrayBy(s: string, i: nat, p: nat, kind: Type, elems: seq<Value>, n: nat)
    requires i + 1 == p < |s| && !IsBlank(s[p]) && s[p] != ']' && s[p] != '#' && kind != Other
    requires TypeAt(s, p, RunEnd(s, p, |s|, ARRAY_STOP)) == kind && ElementsBy(s, p, kind, ElementReader(s, i)) == Ok(elems, n)
    ensures ParseArray(s, i) == Ok(Arr(elems), n)
  {
    SameReader(s, p, kind, ElementReader(s, i), (j: nat) => if i < j <= |s| then ParseValue(s, j) else Fail);
  }

  lemma {:induction false} SameReader(s: string, p: nat, kind: Type, f: nat -> Parsed<Value>, g: nat -> Parsed<Value>)
    requires p <= |s| && forall j: nat :: f(j) == g(j)
    ensures ElementsBy(s, p, kind, f) == ElementsBy(s, p, kind, g)
    decreases |s| - p
  {
    if p < |s| && s[p] != ']' && f(p).Ok? && p < f(p).next <= |s| && TypeOf(f(p).value) == kind {
      var q := SkipBlanks(s, f(p).next);
      if q < |s| && s[q] == ',' {
        SameReader(s, SkipBlanks(s, q + 1), kind, f, g);
      }
    }
  }

  lemma EmptyArrayReadsBack(s: string, i: nat)
    requires At(s, i, "[]")
    ensures ParseArray(s, i) == Ok(Arr([]), i + 2)
  {
    AtChar(s, i, "[]", 1);
    SkipsTo(s, i + 1, i + 1);
  }

  /** A value reads back as itself, and reading stops right after its text. */
  lemma {:induction false} ValueReadsBack(v: Value, s: string, i: nat, e: nat)
    requires GoodValue(v) && At(s, i, ValueText(v)) && e == i + |ValueText(v)| && Stops(s, e)
    ensures ParseValue(s, i) == Ok(v, e)
    decreases v, 1
  {
    ValueStart(v);
    AtChar(s, i, ValueText(v), 0);
    TypeReadsBack(v, s, i, e, |s|);
    if v.Str? {
      StringValueReadsBack(v.str, s, i, e);
    } else if v.Int? {
      var j := IntNumeral(v.n, s, i, e);
      NumeralReads(s, i, j, e, v.n);
    } else if v.Arr? {
      ArrayReadsBack(v, s, i, e);
    } else if !v.b {
      assert s[i] == 'f';
    }
  }

  lemma StringValueReadsBack(str: string, s: string, i: nat, e: nat)
    requires Plain(str) && At(s, i, Quoted(str)) && e == i + |Quoted(str)| && Stops(s, e)
    ensures ParseString(s, i) == Ok(Str(str), e)
  {
    QuotedReadsBack(str, s, i, e);
    SkipsTo(s, e, e);
    if str == "" {
      assert e == i + 2;
    } else {
      EscapeHead(str);
      AtChar(s, i, Quoted(str), 1);
      assert Quoted(str)[1] == Escape(str[0])[0];
      assert Escape(str[0])[0] != '"';
    }
  }

  /** An array whose elements are read one by one; the first tells its type. */
  lemma ArrayOf(elems: seq<Value>, texts: seq<string>, s: string, i: nat, e: nat, read: nat -> Parsed<Value>)
    requires elems != [] && |texts| == |elems| && texts[0] == ValueText(elems[0])
    requires forall m :: 0 <= m < |elems| ==> TypeOf(elems[m]) == TypeOf(elems[0]) && ReadsElement(s, i, read, elems[m], texts[m])
    requires At(s, i, "[" + Join(texts, ", ") + "]") && e == i + |Join(texts, ", ")| + 2
    ensures i + 1 < |s| && StartsValue(s[i + 1]) && TypeAt(s, i + 1, RunEnd(s, i + 1, |s|, ARRAY_STOP)) == TypeOf(elems[0])
    ensures ElementsBy(s, i + 1, TypeOf(elems[0]), read) == Ok(elems, e)
  {
    InBrackets(Join(texts, ", "), s, i, e);
    ElementsReadBack(elems, texts, s, i, i + 1, e - 1, TypeOf(elems[0]), read);
    FirstElement(elems[0], texts, s, i + 1, e - 1);
  }

  lemma InBrackets(inner: string, s: string, i: nat, e: nat)
    requires At(s, i, "[" + inner + "]") && e == i + |inner| + 2
    ensures At(s, i + 1, inner) && e - 1 < |s| && s[e - 1] == ']'
  {
    assert "[" + inner + "]" == "[" + (inner + "]");
    AtSplit(s, i, "[", inner + "]");
    AtSplit(s, i + 1, inner, "]");
    AtChar(s, e - 1, "]", 0);
  }

  lemma {:induction false} ArrayReadsBack(v: Value, s: string, i: nat, e: nat)
    requires v.Arr? && GoodValue(v) && At(s, i, ValueText(v)) && e == i + |ValueText(v)|
    ensures ParseArray(s, i) == Ok(v, e)
    decreases v, 0
  {
    var elems, texts := v.elems, ElementTexts(v.elems);
    if elems == [] {
      assert ValueText(v) == "[]";
      EmptyArrayReadsBack(s, i);
    } else {
      forall m | 0 <= m < |elems|
        ensures texts[m] == ValueText(elems[m]) && TypeOf(elems[m]) == TypeOf(elems[0])
        ensures ReadsElement(s, i, ElementReader(s, i), elems[m], texts[m])
      {
        ElementTextAt(elems, m);
        ElementReadsBack(elems[m], s, i);
      }
      ArrayOf(elems, texts, s, i, e, ElementReader(s, i));
      ParseArrayBy(s, i, i + 1, TypeOf(elems[0]), elems, e);
    }
  }

  lemma {:induction false} ElementReadsBack(v: Value, s: string, i: nat)
    requires GoodValue(v)
    ensures ReadsElement(s, i, ElementReader(s, i), v, ValueText(v))
    decreases v, 2
  {
    ValueStart(v);
    forall k: nat | i < k && ElementAt(s, ValueText(v), k)
      ensures ElementReader(s, i)(k) == Ok(v, k + |ValueText(v)|)
    {
      ValueReadsBack(v, s, k, k + |ValueText(v)|);
    }
  }

  /** The first element tells the type of the array, read up to the first comma or bracket. */
  lemma FirstElement(v: Value, texts: seq<string>, s: string, p: nat, e: nat)
    requires texts != [] && texts[0] == ValueText(v) && At(s, p, Join(texts, ", ")) && e == p + |Join(texts, ", ")| < |s| && s[e] == ']'
    ensures p < |s| && StartsValue(s[p]) && TypeAt(s, p, RunEnd(s, p, |s|, ARRAY_STOP)) == TypeOf(v)
  {
    var d := p + |texts[0]|;
    if |texts| > 1 {
      JoinHead(texts, ", ", s, p, d);
      AtChar(s, d, ", ", 0);
    }
    ValueStart(v);
    AtChar(s, p, texts[0], 0);
    ElementType(v, s, p, d);
  }

  lemma ElementType(v: Value, s: string, p: nat, d: nat)
    requires At(s, p, ValueText(v)) && d == p + |ValueText(v)| < |s| && Stops(s, d)
    ensures TypeAt(s, p, RunEnd(s, p, |s|, ARRAY_STOP)) == TypeOf(v)
  {
    ValueStart(v);
    AtChar(s, p, ValueText(v), 0);
    var end := RunEnd(s, p, |s|, ARRAY_STOP);
    if v.Int? {
      var j := IntNumeral(v.n, s, p, d);
      assert forall k :: p <= k < d ==> ARRAY_STOP(s[k]);
      RunsTo(s, p, d, |s|, ARRAY_STOP);
    }
    TypeReadsBack(v, s, p, d, end);
  }

  // ---- the value parser at work ----

  /** parse_value. */
  method ReadValue(s: string, i: nat) returns (r: Parsed<Value>)
    requires i <= |s|
    ensures r == ParseValue(s, i)
    decreases |s| - i, 2
  {
    match TypeAt(s, i, |s|)
    case StringType =>
      r := ReadString(s, i);
    case IntType =>
      r := ParseNumber(s, i);
    case BoolType =>
      r := ParseBool(s, i);
    case ArrayType =>
      r := ReadArray(s, i);
    case Other =>
      r := Fail;
  }

  /** parse_string. */
  method ReadString(s: string, i: nat) returns (r: Parsed<Value>)
    requires i < |s|
    ensures r == ParseString(s, i)
  {
    if i + 2 < |s| && s[i + 1] == s[i] && s[i + 2] == s[i] {
      return Fail;
    }
    var str := StringLiteral(s, i + 1, s[i]);
    r := if str.Fail? then Fail else Ok(Str(str.value), str.next);
  }

  /** parse_array. */
  method ReadArray(s: string, i: nat) returns (r: Parsed<Value>)
    requires i < |s|
    ensures r == ParseArray(s, i)
    decreases |s| - i, 1
  {
    var p := SkipBlanks(s, i + 1);
    if p == |s| || s[p] == '#' {
      return Fail;
    }
    if s[p] == ']' {
      return Ok(Arr([]), p + 1);
    }
    var kind := TypeAt(s, p, RunEnd(s, p, |s|, ARRAY_STOP));
    var elems := ReadElements(s, i, p, kind);
    SameReader(s, p, kind, ElementReader(s, i), (j: nat) => if i < j <= |s| then ParseValue(s, j) else Fail);
    r := if kind == Other || elems.Fail? then Fail else Ok(Arr(elems.value), elems.next);
  }

  /** What one round of the loop over elements does after reading a value. */
  datatype Round = Stop | Last(next: nat) | More(next: nat)

  function RoundAfter(s: string, it: nat, kind: Type, val: Parsed<Value>): (r: Round)
    ensures !r.Stop? ==> val.Ok? && it < val.next <= r.next <= |s|
  {
    if val.Fail? || !(it < val.next <= |s|) || TypeOf(val.value) != kind then Stop
    else
      var q := SkipBlanks(s, val.next);
      if q == |s| || s[q] == '#' then Stop
      else if s[q] != ',' then (if kind == ArrayType && s[q] != ']' then Stop else Last(q + 1))
      else
        var r := SkipBlanks(s, q + 1);
        if r == |s| || s[r] == '#' then Stop else More(r)
  }

  lemma RoundCounts(s: string, it: nat, kind: Type, read: nat -> Parsed<Value>, arr: seq<Value>)
    requires it < |s| && s[it] != ']'
    ensures var round := RoundAfter(s, it, kind, read(it)); var all := Continue(arr, ElementsBy(s, it, kind, read));
            && (round.Stop? ==> all == Fail)
            && (round.Last? ==> all == Ok(arr + [read(it).value], round.next))
            && (round.More? ==> all == Continue(arr + [read(it).value], ElementsBy(s, round.next, kind, read)))
  {
    var round := RoundAfter(s, it, kind, read(it));
    ContinueEnds(arr, ElementsBy(s, it, kind, read));
    if round.More? {
      ContinueMore(arr, read(it).value, ElementsBy(s, round.next, kind, read));
    }
  }

  /** At the closing bracket, or at the end of the line. */
  lemma ElementsEnd(s: string, it: nat, kind: Type, read: nat -> Parsed<Value>, arr: seq<Value>)
    requires it <= |s|
    ensures Continue([], ElementsBy(s, it, kind, read)) == ElementsBy(s, it, kind, read)
    ensures it == |s| || s[it] == ']' ==> Continue(arr, ElementsBy(s, it, kind, read)) == if it < |s| then Ok(arr, it + 1) else Fail
  {
    ContinueEnds(arr, ElementsBy(s, it, kind, read));
  }

  lemma ReaderReads(s: string, lo: nat, it: nat)
    requires lo < it <= |s|
    ensures ElementReader(s, lo)(it) == ParseValue(s, it)
  {
  }

  /** The loops of parse_value_array and parse_object_array, for the array that starts at lo. */
  method ReadElements(s: string, lo: nat, p: nat, kind: Type) returns (r: Parsed<seq<Value>>)
    requires lo < p <= |s|
    ensures r == ElementsBy(s, p, kind, ElementReader(s, lo))
    decreases |s| - lo, 0
  {
    var arr, it := [], p;
    ghost var read := ElementReader(s, lo);
    ElementsEnd(s, it, kind, read, arr);
    while it < |s| && s[it] != ']'
      invariant p <= it <= |s| && Continue(arr, ElementsBy(s, it, kind, read)) == ElementsBy(s, p, kind, read)
    {
      var val := ReadValue(s, it);
      ReaderReads(s, lo, it);
      RoundCounts(s, it, kind, read, arr);
      var round := RoundAfter(s, it, kind, val);
      if round.Stop? {
        return Fail;
      } else if round.Last? {
        return Ok(arr + [val.value], round.next);
      }
      arr, it := arr + [val.value], round.next;
    }
    ElementsEnd(s, it, kind, read, arr);
    r := if it < |s| then Ok(arr, it + 1) else Fail;
  }
}
