/** What TOML text means, without reading or writing it; and that cpptoml's parser makes of it what it means. */
module TomlMeaning {
  import opened TomlText

  // ---- strings ----

  /** The letters after a backslash, and the codes of the characters they stand for. */
  const ESCAPES := "btnfr\"\\"
  const CODES: seq<int> := [8, 9, 10, 12, 13, 34, 92]

  predicate EscapeMeans(letter: char, c: char) { exists k :: 0 <= k < 7 && letter == ESCAPES[k] && c as int == CODES[k] }

  /** The text from i to e means the characters of str, inside quotes of this kind. */
  predicate CharsMean(s: string, i: nat, e: nat, quote: char, str: string)
    decreases str
  {
    if str == "" then i == e
    else
      && i < e <= |s|
      && if quote == '"' && s[i] == '\\' then i + 2 <= e && EscapeMeans(s[i + 1], str[0]) && CharsMean(s, i + 2, e, quote, str[1..])
         else s[i] == str[0] != quote && CharsMean(s, i + 1, e, quote, str[1..])
  }

  /** Quotes from i to q with these characters between them. */
  predicate QuotedMeans(s: string, i: nat, q: nat, str: string)
  {
    i < q < |s| && (s[i] == '"' || s[i] == '\'') && CharsMean(s, i + 1, q, s[i], str) && s[q] == s[i]
  }

  /** The same, with blanks after the closing quote up to e. */
  ghost predicate StringMeans(s: string, i: nat, e: nat, str: string)
  {
    exists q: nat :: QuotedMeans(s, i, q, str) && BlanksTo(s, q + 1, e)
  }

  lemma {:induction false} StringBodyMeans(s: string, i: nat, quote: char) returns (q: nat)
    requires i <= |s| && (quote == '"' || quote == '\'') && StringBody(s, i, quote).Ok?
    ensures i <= q < |s| && s[q] == quote && CharsMean(s, i, q, quote, StringBody(s, i, quote).value)
    ensures BlanksTo(s, q + 1, StringBody(s, i, quote).next)
    decreases |s| - i
  {
    if quote == '"' && s[i] == '\\' {
      UnescapeMeans(s[i + 1]);
      q := StringBodyMeans(s, i + 2, quote);
    } else if s[i] == quote {
      q := i;
      SkippedBlanks(s, i + 1);
    } else {
      q := StringBodyMeans(s, i + 1, quote);
    }
  }

  lemma UnescapeMeans(letter: char)
    requires Unescape(letter).Ok?
    ensures EscapeMeans(letter, Unescape(letter).value)
  {
    var k := if letter == 'b' then 0 else if letter == 't' then 1 else if letter == 'n' then 2 else if letter == 'f' then 3
             else if letter == 'r' then 4 else if letter == '"' then 5 else 6;
    assert letter == ESCAPES[k] && Unescape(letter).value as int == CODES[k];
  }

  lemma {:induction false} SkippedBlanks(s: string, i: nat)
    requires i <= |s|
    ensures BlanksTo(s, i, SkipBlanks(s, i))
    decreases |s| - i
  {
    if i < |s| && IsBlank(s[i]) {
      SkippedBlanks(s, i + 1);
    }
  }

  lemma StringLiteralMeans(s: string, i: nat)
    requires i < |s| && (s[i] == '"' || s[i] == '\'') && StringBody(s, i + 1, s[i]).Ok?
    ensures StringMeans(s, i, StringBody(s, i + 1, s[i]).next, StringBody(s, i + 1, s[i]).value)
  {
    var q := StringBodyMeans(s, i + 1, s[i]);
    assert QuotedMeans(s, i, q, StringBody(s, i + 1, s[i]).value);
  }

  // ---- keys ----

  /** A key that is not quoted: the text up to the next delimiter, without blanks around it. */
  predicate BareMeans(s: string, p: nat, t: nat, e: nat, k: Key)
  {
    && p < t <= e <= |s| && s[p..t] == k && BlanksTo(s, t, e)
    && (forall i :: p <= i < e ==> !EndsKey(s[i])) && (e < |s| ==> EndsKey(s[e]))
    && forall i :: 0 <= i < |k| ==> k[i] != '#' && k[i] != ' ' && k[i] != '\t' && k[i] != '[' && k[i] != ']'
  }

  /** Blanks and one key, from i to e. */
  ghost predicate KeyMeans(s: string, i: nat, e: nat, k: Key)
  {
    exists p: nat, t: nat :: KeyParts(s, i, p, t, e, k)
  }

  ghost predicate KeyParts(s: string, i: nat, p: nat, t: nat, e: nat, k: Key)
  {
    BlanksTo(s, i, p) && p < |s| && if s[p] == '"' || s[p] == '\'' then StringMeans(s, p, e, k) else BareMeans(s, p, t, e, k)
  }

  /** Keys joined by dots, from i to e, up to the stop character. */
  ghost predicate PathMeans(s: string, i: nat, e: nat, stop: char, path: seq<Key>)
    decreases path, 1
  {
    path != [] && exists q: nat, r: nat :: PathStep(s, i, q, r, stop, path[0]) && PathGoesOn(s, r, e, stop, path)
  }

  /** After the first key, at r: the end of the path, or a dot and the other keys. */
  ghost predicate PathGoesOn(s: string, r: nat, e: nat, stop: char, path: seq<Key>)
    requires path != []
    decreases path, 0
  {
    if |path| == 1 then e == r <= |s| && (e < |s| ==> s[e] == stop)
    else r < |s| && s[r] == '.' && PathMeans(s, r + 1, e, stop, path[1..])
  }

  /** One key of a path from i to q, and blanks up to r. */
  ghost predicate PathStep(s: string, i: nat, q: nat, r: nat, stop: char, k: Key)
  {
    i < |s| && s[i] != stop && KeyMeans(s, i, q, k) && BlanksTo(s, q, r)
  }

  lemma {:induction false} AllowedMeans(k: Key)
    requires AllowedInBare(k)
    ensures forall i :: 0 <= i < |k| ==> k[i] != '#' && k[i] != ' ' && k[i] != '\t' && k[i] != '[' && k[i] != ']'
    decreases k
  {
    if k != "" {
      AllowedMeans(k[1..]);
      assert forall i :: 1 <= i < |k| ==> k[i] == k[1..][i - 1];
    }
  }

  lemma {:induction false} TrimmedBlanks(s: string, i: nat, e: nat)
    requires i <= e < |s|
    ensures BlanksTo(s, TrimBack(s, i, e) + 1, e + 1)
    decreases e - i
  {
    if e != i && IsBlank(s[e]) {
      TrimmedBlanks(s, i, e - 1);
    }
  }

  lemma {:induction false} KeyEndMeans(s: string, i: nat)
    requires i <= |s|
    ensures forall j :: i <= j < KeyEnd(s, i) ==> !EndsKey(s[j])
    decreases |s| - i
  {
    if i < |s| && !EndsKey(s[i]) {
      KeyEndMeans(s, i + 1);
    }
  }

  lemma SimpleKeyMeans(s: string, i: nat)
    requires i <= |s| && SimpleKey(s, i).Ok?
    ensures KeyMeans(s, i, SimpleKey(s, i).next, SimpleKey(s, i).value)
  {
    var p, r := SkipBlanks(s, i), SimpleKey(s, i);
    SkippedBlanks(s, i);
    var t := p;
    if s[p] == '"' || s[p] == '\'' {
      StringLiteralMeans(s, p);
    } else {
      t := TrimBack(s, p, r.next - 1) + 1;
      TrimmedBlanks(s, p, r.next - 1);
      KeyEndMeans(s, p);
      AllowedMeans(r.value);
    }
    assert KeyParts(s, i, p, t, r.next, r.value);
  }

  /** A way to read one key that reads what it means. */
  ghost predicate ReadsKeys(s: string, read: nat -> Parsed<Key>)
  {
    forall i: nat {:trigger read(i)} :: read(i).Ok? && i <= |s| ==> KeyMeans(s, i, read(i).next, read(i).value)
  }

  lemma {:induction false} KeysMean(s: string, i: nat, stop: char, read: nat -> Parsed<Key>)
    requires i <= |s| && ReadsKeys(s, read) && KeysBy(s, i, stop, read).Ok?
    ensures PathMeans(s, i, KeysBy(s, i, stop, read).next, stop, KeysBy(s, i, stop, read).value)
    decreases |s| - i
  {
    var k, q := read(i).value, read(i).next;
    var r := SkipBlanks(s, q);
    SkippedBlanks(s, q);
    if r < |s| && s[r] != stop {
      KeysMean(s, r + 1, stop, read);
      MoreKeys(s, i, q, r, stop, k, KeysBy(s, r + 1, stop, read));
    } else {
      LastKey(s, i, q, r, stop, k);
    }
  }

  lemma MoreKeys(s: string, i: nat, q: nat, r: nat, stop: char, k: Key, more: Parsed<seq<Key>>)
    requires PathStep(s, i, q, r, stop, k) && r < |s| && s[r] == '.' && more.Ok? && PathMeans(s, r + 1, more.next, stop, more.value)
    ensures PathMeans(s, i, more.next, stop, [k] + more.value)
  {
    var all := [k] + more.value;
    assert all[0] == k && all[1..] == more.value && |all| > 1;
    assert PathStep(s, i, q, r, stop, all[0]) && PathGoesOn(s, r, more.next, stop, all);
  }

  lemma LastKey(s: string, i: nat, q: nat, r: nat, stop: char, k: Key)
    requires PathStep(s, i, q, r, stop, k) && r <= |s| && (r < |s| ==> s[r] == stop)
    ensures PathMeans(s, i, r, stop, [k])
  {
    assert PathStep(s, i, q, r, stop, [k][0]) && PathGoesOn(s, r, r, stop, [k]);
  }

  lemma KeyPathMeans(s: string, i: nat, stop: char)
    requires i <= |s| && KeyPath(s, i, stop).Ok?
    ensures PathMeans(s, i, KeyPath(s, i, stop).next, stop, KeyPath(s, i, stop).value)
  {
    forall i: nat | KeyReader(s)(i).Ok? && i <= |s|
      ensures KeyMeans(s, i, KeyReader(s)(i).next, KeyReader(s)(i).value)
    {
      SimpleKeyMeans(s, i);
    }
    KeysMean(s, i, stop, KeyReader(s));
  }

  // ---- numbers ----

  /** Digits, with single underscores between them. */
  predicate DigitWord(w: string)
  {
    && w != "" && IsNumber(w[0]) && IsNumber(w[|w| - 1])
    && forall i :: 0 <= i < |w| ==> IsNumber(w[i]) || (w[i] == '_' && i + 1 < |w| && IsNumber(w[i + 1]))
  }

  /** The number that digits mean; underscores mean nothing. */
  function Decimal(w: string): nat
  {
    if w == "" then 0
    else
      var rest, last := Decimal(w[..|w| - 1]), w[|w| - 1];
      if last == '_' then rest else if '0' <= last <= '9' then 10 * rest + (last as int - '0' as int) else rest
  }

  /** A 64-bit integer from i to e. */
  predicate IntMeans(s: string, i: nat, e: nat, n: int)
  {
    && i < e <= |s| && -0x8000_0000_0000_0000 <= n <= 0x7FFF_FFFF_FFFF_FFFF
    && var j := if s[i] == '-' || s[i] == '+' then i + 1 else i;
       j < e && DigitWord(s[j..e]) && n == if s[i] == '-' then -(Decimal(s[j..e]) as int) else Decimal(s[j..e])
  }

  lemma {:induction false} DigitsMean(s: string, i: nat)
    requires i <= |s| && DigitsEnd(s, i).Ok?
    ensures DigitWord(s[i..DigitsEnd(s, i).next])
    decreases |s| - i
  {
    var e := DigitsEnd(s, i).next;
    var w := s[i..e];
    var k := if i + 1 < |s| && s[i + 1] == '_' then 2 else 1;
    if i + k < |s| && IsNumber(s[i + k]) && (k == 2 || s[i + 1] != '_') {
      DigitsMean(s, i + k);
      var more := s[i + k..e];
      assert forall j :: 0 <= j < |more| ==> more[j] == w[j + k];
      assert w[|w| - 1] == more[|more| - 1];
      forall j | 0 <= j < |w|
        ensures IsNumber(w[j]) || (w[j] == '_' && j + 1 < |w| && IsNumber(w[j + 1]))
      {
        if j >= k {
          assert w[j] == more[j - k];
          assert j + 1 < |w| ==> w[j + 1] == more[j - k + 1];
        } else if j == 1 {
          assert w[2] == more[0];
        }
      }
    }
  }

  lemma {:induction false} DecimalValue(s: string, i: nat, e: nat)
    requires i <= e <= |s|
    ensures DigitsValue(s, i, e) == Decimal(s[i..e])
    decreases e - i
  {
    if i < e {
      DecimalValue(s, i, e - 1);
      assert s[i..e][..e - i - 1] == s[i..e - 1] && s[i..e][e - i - 1] == s[e - 1];
    }
  }

  lemma NumberMeans(s: string, i: nat)
    requires i < |s| && ParseNumber(s, i).Ok?
    ensures ParseNumber(s, i).value.Int? && IntMeans(s, i, ParseNumber(s, i).next, ParseNumber(s, i).value.n)
  {
    var j := if s[i] == '-' || s[i] == '+' then i + 1 else i;
    var e := ParseNumber(s, i).next;
    DigitsMean(s, j);
    DecimalValue(s, j, e);
  }

  // ---- values ----

  /** The text from i to e means v. */
  ghost predicate ValueMeans(s: string, i: nat, e: nat, v: Value)
    decreases v, 0
  {
    match v
    case Str(str) => StringMeans(s, i, e, str)
    case Int(n) => IntMeans(s, i, e, n)
    case Bool(b) => e <= |s| && i <= e && s[i..e] == if b then "true" else "false"
    case Arr(elems) => i < |s| && s[i] == '[' && exists p: nat :: BlanksTo(s, i + 1, p) && ElementsMean(s, p, e, elems)
  }

  /** The elements of an array from p on, separated by commas, up to its end at e. */
  ghost predicate ElementsMean(s: string, p: nat, e: nat, elems: seq<Value>)
    decreases elems, 0
  {
    if elems == [] then p < |s| && s[p] == ']' && e == p + 1
    else exists q: nat, r: nat, p': nat :: ElementStep(s, q, r, p', e, elems) && ValueMeans(s, p, q, elems[0]) && (p' > 0 ==> ElementsMean(s, p', e, elems[1..]))
  }

  /**
   * After an element that ends at q come blanks up to r and then a comma, with the next one at p', or the end of the
   * array; p' is 0 then. The parser takes any character but a comma as the end of an array, unless it is one of arrays.
   */
  predicate ElementStep(s: string, q: nat, r: nat, p': nat, e: nat, elems: seq<Value>)
    requires elems != []
  {
    && BlanksTo(s, q, r) && r < |s|
    && if s[r] == ',' then p' > r && BlanksTo(s, r + 1, p') else p' == 0 && |elems| == 1 && e == r + 1 && (elems[0].Arr? ==> s[r] == ']')
  }

  // ---- the parser reads what the text means ----

  /** A way to read one value that reads what it means. */
  ghost predicate ReadsElements(s: string, lo: nat, read: nat -> Parsed<Value>)
  {
    forall j: nat {:trigger read(j)} :: lo < j <= |s| && read(j).Ok? ==> ValueMeans(s, j, read(j).next, read(j).value)
  }

  lemma {:induction false} ElementsReadMean(s: string, lo: nat, p: nat, kind: Type, read: nat -> Parsed<Value>)
    requires lo < p <= |s| && ReadsElements(s, lo, read) && ElementsBy(s, p, kind, read).Ok?
    ensures ElementsMean(s, p, ElementsBy(s, p, kind, read).next, ElementsBy(s, p, kind, read).value)
    decreases |s| - p
  {
    if s[p] != ']' {
      var v, q := read(p).value, read(p).next;
      var r := SkipBlanks(s, q);
      SkippedBlanks(s, q);
      if s[r] == ',' {
        var p' := SkipBlanks(s, r + 1);
        SkippedBlanks(s, r + 1);
        ElementsReadMean(s, lo, p', kind, read);
        MoreElements(s, p, q, r, p', v, ElementsBy(s, p', kind, read));
      } else {
        LastElementMeans(s, p, q, r, v);
      }
    }
  }

  lemma MoreElements(s: string, p: nat, q: nat, r: nat, p': nat, v: Value, more: Parsed<seq<Value>>)
    requires more.Ok? && ValueMeans(s, p, q, v) && BlanksTo(s, q, r) && r < |s| && s[r] == ',' && BlanksTo(s, r + 1, p')
    requires ElementsMean(s, p', more.next, more.value)
    ensures ElementsMean(s, p, more.next, [v] + more.value)
  {
    var elems := [v] + more.value;
    assert elems[0] == v && elems[1..] == more.value;
    assert ElementStep(s, q, r, p', more.next, elems);
  }

  lemma LastElementMeans(s: string, p: nat, q: nat, r: nat, v: Value)
    requires ValueMeans(s, p, q, v) && BlanksTo(s, q, r) && r < |s| && s[r] != ',' && (v.Arr? ==> s[r] == ']')
    ensures ElementsMean(s, p, r + 1, [v])
  {
    assert [v][0] == v && [v][1..] == [];
    assert ElementStep(s, q, r, 0, r + 1, [v]);
  }

  /** The parser takes a text for the value that it means. */
  lemma {:induction false} ParsesMeaning(s: string, i: nat)
    requires i <= |s| && ParseValue(s, i).Ok?
    ensures ValueMeans(s, i, ParseValue(s, i).next, ParseValue(s, i).value)
    decreases |s| - i, 1
  {
    match TypeAt(s, i, |s|)
    case StringType => StringLiteralMeans(s, i);
    case IntType => NumberMeans(s, i);
    case BoolType =>
    case ArrayType => ArrayMeans(s, i);
    case Other =>
  }

  lemma {:induction false} ArrayMeans(s: string, i: nat)
    requires i < |s| && s[i] == '[' && ParseArray(s, i).Ok?
    ensures ValueMeans(s, i, ParseArray(s, i).next, ParseArray(s, i).value)
    decreases |s| - i, 0
  {
    var p := SkipBlanks(s, i + 1);
    SkippedBlanks(s, i + 1);
    if s[p] != ']' {
      forall j: nat | i < j <= |s| && ElementReader(s, i)(j).Ok?
        ensures ValueMeans(s, j, ElementReader(s, i)(j).next, ElementReader(s, i)(j).value)
      {
        ParsesMeaning(s, j);
      }
      var kind := TypeAt(s, p, RunEnd(s, p, |s|, ARRAY_STOP));
      SameReader(s, p, kind, ElementReader(s, i), (j: nat) => if i < j <= |s| then ParseValue(s, j) else Fail);
      ElementsReadMean(s, i, p, kind, ElementReader(s, i));
    }
    var r := ParseArray(s, i);
    assert BlanksTo(s, i + 1, p) && ElementsMean(s, p, r.next, r.value.elems);
  }

  /** What the writer prints for a value means that value. */
  lemma WrittenMeaning(v: Value)
    requires GoodValue(v)
    ensures ValueMeans(ValueText(v), 0, |ValueText(v)|, v)
  {
    ValueReadsBack(v, ValueText(v), 0, |ValueText(v)|);
    ParsesMeaning(ValueText(v), 0);
  }

  /** A way to read any value of the line that reads what it means. */
  ghost predicate ReadsValues(s: string, read: nat -> Parsed<Value>)
  {
    forall j: nat {:trigger read(j)} :: j <= |s| && read(j).Ok? ==> ValueMeans(s, j, read(j).next, read(j).value)
  }

  /** An array of numbers, booleans or strings may end with any character but a comma. */
  lemma UnclosedArray()
    ensures ParseValue("[1;", 0) == Ok(Arr([Int(1)]), 3)
  {
    assert ParseValue("[1;", 1) == Ok(Int(1), 2);
  }
}
