/** Trees of TOML tables, the lines that describe them, and the table the parser builds from such lines. */
module TomlTree {
  import opened TomlText

  /** A table is the sequence of its entries in the order some iteration over it visits them. */
  datatype Node = Leaf(value: Value) | Table(entries: seq<Entry>) | Tables(elems: seq<Body>)
  datatype Body = Body(entries: seq<Entry>)
  datatype Entry = Entry(key: Key, node: Node)

  datatype Line = Blank | Header(path: seq<Key>) | ArrayHeader(path: seq<Key>) | Item(parts: seq<Key>, value: Value)

  // ---- tables as the parser changes them ----

  datatype Result = Bad | Good(entries: seq<Entry>)

  /** The position of a key, or the length if it is not there. */
  function Index(es: seq<Entry>, k: Key): (i: nat)
    ensures i <= |es| && (i < |es| ==> es[i].key == k)
  {
    if es == [] then 0 else if es[0].key == k then 0 else 1 + Index(es[1..], k)
  }

  predicate Has(es: seq<Entry>, k: Key) { Index(es, k) < |es| }

  /** The table below key k: the table itself, or the last one of a table array. */
  predicate HasTable(es: seq<Entry>, k: Key)
  {
    Has(es, k) && var n := es[Index(es, k)].node; n.Table? || (n.Tables? && n.elems != [])
  }

  function Inner(es: seq<Entry>, k: Key): seq<Entry>
    requires HasTable(es, k)
  {
    var n := es[Index(es, k)].node;
    if n.Table? then n.entries else n.elems[|n.elems| - 1].entries
  }

  /** The same with that table replaced. */
  function WithInner(es: seq<Entry>, k: Key, t: seq<Entry>): seq<Entry>
    requires HasTable(es, k)
  {
    var i := Index(es, k);
    var n := es[i].node;
    es[i := Entry(k, if n.Table? then Table(t) else Tables(n.elems[|n.elems| - 1 := Body(t)]))]
  }

  function Lift(es: seq<Entry>, k: Key, r: Result): Result
    requires HasTable(es, k)
  {
    if r.Bad? then Bad else Good(WithInner(es, k, r.entries))
  }

  predicate HasValue(es: seq<Entry>) { exists i :: 0 <= i < |es| && es[i].node.Leaf? && !es[i].node.value.Arr? }

  /** parse_single_table: walks the path, creating what is missing; a table that holds values is not grown twice. */
  function OpenTable(es: seq<Entry>, path: seq<Key>, inserted: bool): Result
    decreases path
  {
    if path == [] then (if !inserted && (es == [] || HasValue(es)) then Bad else Good(es))
    else if path[0] == "" then Bad
    else if HasTable(es, path[0]) then Lift(es, path[0], OpenTable(Inner(es, path[0]), path[1..], inserted))
    else if Has(es, path[0]) then Bad
    else
      var r := OpenTable([], path[1..], true);
      if r.Bad? then Bad else Good(es + [Entry(path[0], Table(r.entries))])
  }

  /** parse_table_array: the last part gets a new element, the others are walked or created. */
  function OpenArray(es: seq<Entry>, path: seq<Key>): Result
    requires path != []
    decreases path
  {
    var k := path[0];
    if k == "" then Bad
    else if |path| == 1 then
      if !Has(es, k) then Good(es + [Entry(k, Tables([Body([])]))])
      else
        var i := Index(es, k);
        if es[i].node.Tables? then Good(es[i := Entry(k, Tables(es[i].node.elems + [Body([])]))]) else Bad
    else if HasTable(es, k) then Lift(es, k, OpenArray(Inner(es, k), path[1..]))
    else if Has(es, k) then Bad
    else
      var r := OpenArray([], path[1..]);
      if r.Bad? then Bad else Good(es + [Entry(k, Table(r.entries))])
  }

  /** parse_key_value in the table itself: dotted parts name or create tables, the last part must be new. */
  function Put(es: seq<Entry>, parts: seq<Key>, v: Value): Result
    requires parts != []
    decreases parts
  {
    var k := parts[0];
    if |parts| == 1 then (if Has(es, k) then Bad else Good(es + [Entry(k, Leaf(v))]))
    else if !Has(es, k) then
      var r := Put([], parts[1..], v);
      if r.Bad? then Bad else Good(es + [Entry(k, Table(r.entries))])
    else if es[Index(es, k)].node.Table? then Lift(es, k, Put(Inner(es, k), parts[1..], v))
    else Bad
  }

  /** The same in the current table, which lies at path cur. */
  function PutAt(es: seq<Entry>, cur: seq<Key>, parts: seq<Key>, v: Value): Result
    requires parts != []
    decreases cur
  {
    if cur == [] then Put(es, parts, v)
    else if HasTable(es, cur[0]) then Lift(es, cur[0], PutAt(Inner(es, cur[0]), cur[1..], parts, v))
    else Bad
  }

  // ---- running lines ----

  datatype State = Failed | State(root: seq<Entry>, cur: seq<Key>)

  function From(r: Result, cur: seq<Key>): State { if r.Bad? then Failed else State(r.entries, cur) }

  predicate Usable(line: Line)
  {
    match line
    case Blank => true
    case Header(p) => p != []
    case ArrayHeader(p) => p != []
    case Item(parts, _) => parts != []
  }

  function Step(root: seq<Entry>, cur: seq<Key>, line: Line): State
    requires Usable(line)
  {
    match line
    case Blank => State(root, cur)
    case Header(p) => From(OpenTable(root, p, false), p)
    case ArrayHeader(p) => From(OpenArray(root, p), p)
    case Item(parts, v) => From(PutAt(root, cur, parts, v), cur)
  }

  predicate AllUsable(lines: seq<Line>) { forall i :: 0 <= i < |lines| ==> Usable(lines[i]) }

  function Run(root: seq<Entry>, cur: seq<Key>, lines: seq<Line>): State
    requires AllUsable(lines)
    decreases lines
  {
    if lines == [] then State(root, cur)
    else
      var st := Step(root, cur, lines[0]);
      if st.Failed? then Failed else Run(st.root, st.cur, lines[1..])
  }

  lemma {:induction false} RunConcat(root: seq<Entry>, cur: seq<Key>, a: seq<Line>, b: seq<Line>)
    requires AllUsable(a) && AllUsable(b)
    ensures AllUsable(a + b)
    ensures var st := Run(root, cur, a);
            Run(root, cur, a + b) == if st.Failed? then Failed else Run(st.root, st.cur, b)
    decreases a
  {
    if a == [] {
      assert a + b == b;
    } else {
      var st := Step(root, cur, a[0]);
      assert (a + b)[0] == a[0] && (a + b)[1..] == a[1..] + b;
      if !st.Failed? {
        RunConcat(st.root, st.cur, a[1..], b);
      }
    }
  }

  /** Two runs, one after the other. */
  lemma RunBoth(root: seq<Entry>, cur: seq<Key>, a: seq<Line>, b: seq<Line>, root1: seq<Entry>, cur1: seq<Key>)
    requires AllUsable(a) && AllUsable(b) && Run(root, cur, a) == State(root1, cur1)
    ensures AllUsable(a + b) && Run(root, cur, a + b) == Run(root1, cur1, b)
  {
    RunConcat(root, cur, a, b);
  }

  /** The same, for runs that append. */
  lemma RunThen(root: seq<Entry>, cur: seq<Key>, a: seq<Line>, b: seq<Line>, first: seq<Entry>, cur1: seq<Key>, rest: seq<Entry>)
    requires AllUsable(a) && AllUsable(b) && Run(root, cur, a) == State(root + first, cur1)
    requires Run(root + first, cur1, b).State? && Run(root + first, cur1, b).root == root + first + rest
    ensures AllUsable(a + b) && Run(root, cur, a + b).State? && Run(root, cur, a + b).root == root + (first + rest)
  {
    RunBoth(root, cur, a, b, root + first, cur1);
    Assoc(root, first, rest);
  }

  lemma Assoc<T>(a: seq<T>, b: seq<T>, c: seq<T>)
    ensures a + b + c == a + (b + c)
  {
  }

  // ---- lines below a key ----

  /** The line, with the key in front of its path. */
  function Below(k: Key, line: Line): Line
  {
    match line
    case Header(p) => Header([k] + p)
    case ArrayHeader(p) => ArrayHeader([k] + p)
    case _ => line
  }

  function AllBelow(k: Key, lines: seq<Line>): (r: seq<Line>)
    requires AllUsable(lines)
    ensures AllUsable(r) && |r| == |lines|
  {
    if lines == [] then [] else [Below(k, lines[0])] + AllBelow(k, lines[1..])
  }

  lemma InnerOf(es: seq<Entry>, k: Key, t: seq<Entry>)
    requires HasTable(es, k)
    ensures HasTable(WithInner(es, k, t), k) && Inner(WithInner(es, k, t), k) == t
  {
    SameIndex(es, k, t);
  }

  lemma InnerTwice(es: seq<Entry>, k: Key, t: seq<Entry>, u: seq<Entry>)
    requires HasTable(es, k)
    ensures HasTable(WithInner(es, k, t), k) && WithInner(WithInner(es, k, t), k, u) == WithInner(es, k, u)
  {
    InnerOf(es, k, t);
    SameIndex(es, k, t);
    var i := Index(es, k);
    var n := es[i].node;
    if n.Tables? {
      var last := |n.elems| - 1;
      assert n.elems[last := Body(t)][last := Body(u)] == n.elems[last := Body(u)];
    }
    assert WithInner(WithInner(es, k, t), k, u)[i] == WithInner(es, k, u)[i];
  }

  lemma InnerKept(es: seq<Entry>, k: Key)
    requires HasTable(es, k)
    ensures WithInner(es, k, Inner(es, k)) == es
  {
    var i := Index(es, k);
    var n := es[i].node;
    if n.Tables? {
      var last := |n.elems| - 1;
      assert n.elems[last := n.elems[last]] == n.elems;
    }
    assert WithInner(es, k, Inner(es, k))[i] == es[i];
  }

  lemma SameIndex(es: seq<Entry>, k: Key, t: seq<Entry>)
    requires HasTable(es, k)
    ensures Index(WithInner(es, k, t), k) == Index(es, k)
  {
    IndexUpdate(es, k, WithInner(es, k, t)[Index(es, k)]);
  }

  lemma {:induction false} IndexUpdate(es: seq<Entry>, k: Key, e: Entry)
    requires Has(es, k) && e.key == k
    ensures Index(es[Index(es, k) := e], k) == Index(es, k)
    decreases es
  {
    var i := Index(es, k);
    if i > 0 {
      assert es[i := e][1..] == es[1..][i - 1 := e];
      IndexUpdate(es[1..], k, e);
    }
  }

  /** A line below k acts on the table below k and on nothing else. */
  lemma StepBelow(es: seq<Entry>, k: Key, cur: seq<Key>, line: Line)
    requires HasTable(es, k) && Usable(line) && k != ""
    ensures Usable(Below(k, line))
    ensures var st := Step(Inner(es, k), cur, line);
            Step(es, [k] + cur, Below(k, line)) == if st.Failed? then Failed else State(WithInner(es, k, st.root), [k] + st.cur)
  {
    match line
    case Blank =>
      InnerKept(es, k);
    case Header(p) =>
      assert ([k] + p)[1..] == p;
    case ArrayHeader(p) =>
      assert ([k] + p)[1..] == p;
    case Item(parts, v) =>
      assert ([k] + cur)[1..] == cur;
  }

  lemma {:induction false} RunBelow(es: seq<Entry>, k: Key, cur: seq<Key>, lines: seq<Line>)
    requires HasTable(es, k) && AllUsable(lines) && k != ""
    ensures var st := Run(Inner(es, k), cur, lines);
            Run(es, [k] + cur, AllBelow(k, lines)) == if st.Failed? then Failed else State(WithInner(es, k, st.root), [k] + st.cur)
    decreases lines
  {
    if lines == [] {
      InnerKept(es, k);
    } else {
      var st := Step(Inner(es, k), cur, lines[0]);
      StepBelow(es, k, cur, lines[0]);
      BelowHead(k, lines);
      if !st.Failed? {
        InnerOf(es, k, st.root);
        RunBelow(WithInner(es, k, st.root), k, st.cur, lines[1..]);
        var st' := Run(st.root, st.cur, lines[1..]);
        if !st'.Failed? {
          InnerTwice(es, k, st.root, st'.root);
        }
      }
    }
  }

  lemma BelowHead(k: Key, lines: seq<Line>)
    requires AllUsable(lines) && lines != []
    ensures AllBelow(k, lines)[0] == Below(k, lines[0]) && AllBelow(k, lines)[1..] == AllBelow(k, lines[1..])
  {
  }

  // ---- what tables say, path by path ----

  datatype Found<T> = Nothing | Found(value: T)

  /** The table at a path, through tables and the last ones of table arrays. */
  function TableAt(es: seq<Entry>, path: seq<Key>): Found<seq<Entry>>
    decreases path
  {
    if path == [] then Found(es) else if HasTable(es, path[0]) then TableAt(Inner(es, path[0]), path[1..]) else Nothing
  }

  /** The value at a path. */
  function Find(es: seq<Entry>, path: seq<Key>): Found<Value>
    decreases path
  {
    if path == [] then Nothing
    else if |path| == 1 then
      if Has(es, path[0]) && es[Index(es, path[0])].node.Leaf? then Found(es[Index(es, path[0])].node.value) else Nothing
    else if HasTable(es, path[0]) then Find(Inner(es, path[0]), path[1..])
    else Nothing
  }

  /** Replacing the table below k changes what is found below k only. */
  lemma FindInner(es: seq<Entry>, k: Key, t: seq<Entry>, q: seq<Key>)
    requires HasTable(es, k) && q != []
    ensures Find(WithInner(es, k, t), q) == if q[0] == k then (if |q| == 1 then Nothing else Find(t, q[1..])) else Find(es, q)
  {
    InnerOf(es, k, t);
    OthersStay(es, k, t, q[0]);
  }

  lemma OthersStay(es: seq<Entry>, k: Key, t: seq<Entry>, j: Key)
    requires HasTable(es, k)
    ensures Index(WithInner(es, k, t), j) == Index(es, j)
    ensures j != k && Has(es, j) ==> WithInner(es, k, t)[Index(es, j)] == es[Index(es, j)]
    ensures j != k ==> (HasTable(WithInner(es, k, t), j) <==> HasTable(es, j))
    ensures j != k && HasTable(es, j) ==> Inner(WithInner(es, k, t), j) == Inner(es, j)
  {
    SameKeys(es, k, t, j);
  }

  lemma SameKeys(es: seq<Entry>, k: Key, t: seq<Entry>, j: Key)
    requires HasTable(es, k)
    ensures Index(WithInner(es, k, t), j) == Index(es, j)
  {
    var i := Index(es, k);
    IndexSameKeys(es, WithInner(es, k, t), j);
  }

  lemma {:induction false} IndexSameKeys(a: seq<Entry>, b: seq<Entry>, j: Key)
    requires |a| == |b| && forall i :: 0 <= i < |a| ==> a[i].key == b[i].key
    ensures Index(a, j) == Index(b, j)
    decreases a
  {
    if a != [] {
      IndexSameKeys(a[1..], b[1..], j);
    }
  }

  /** A new entry is found under its key, and nothing else changes. */
  lemma FindNew(es: seq<Entry>, e: Entry, q: seq<Key>)
    requires !Has(es, e.key) && q != []
    ensures Find(es + [e], q) == if q[0] == e.key then Find([e], q) else Find(es, q)
  {
    IndexAppended(es, e, q[0]);
    assert [e][1..] == [];
  }

  lemma {:induction false} IndexAppended(es: seq<Entry>, e: Entry, k: Key)
    ensures Index(es + [e], k) == if Has(es, k) then Index(es, k) else if e.key == k then |es| else |es| + 1
    decreases es
  {
    if es == [] {
      assert es + [e] == [e] && [e][1..] == [];
    } else {
      assert (es + [e])[0] == es[0] && (es + [e])[1..] == es[1..] + [e];
      IndexAppended(es[1..], e, k);
    }
  }

  lemma FindOne(e: Entry, q: seq<Key>)
    requires q != [] && q[0] == e.key
    ensures Find([e], q) == match e.node
                            case Leaf(v) => if |q| == 1 then Found(v) else Nothing
                            case Table(t) => if |q| == 1 then Nothing else Find(t, q[1..])
                            case Tables(ts) => if |q| == 1 || ts == [] then Nothing else Find(ts[|ts| - 1].entries, q[1..])
  {
    assert Index([e], e.key) == 0;
  }

  lemma {:induction false} FindNothing(q: seq<Key>)
    ensures Find([], q) == Nothing
  {
  }

  /** key = value puts the value where it says, where there was none, and changes no other value. */
  lemma {:induction false} PutFinds(es: seq<Entry>, parts: seq<Key>, v: Value, q: seq<Key>)
    requires parts != [] && Put(es, parts, v).Good? && q != []
    ensures Find(Put(es, parts, v).entries, q) == if q == parts then Found(v) else Find(es, q)
    ensures Find(es, parts) == Nothing
    decreases parts
  {
    var k := parts[0];
    if |parts| == 1 {
      assert parts == [k];
      FindNew(es, Entry(k, Leaf(v)), q);
      if q[0] == k {
        FindOne(Entry(k, Leaf(v)), q);
        assert |q| == 1 ==> q == [k];
      }
    } else if !Has(es, k) {
      var t := Put([], parts[1..], v).entries;
      FindNew(es, Entry(k, Table(t)), q);
      if q[0] == k {
        FindOne(Entry(k, Table(t)), q);
        BelowKey(q, parts);
        if |q| > 1 {
          PutFinds([], parts[1..], v, q[1..]);
          FindNothing(q[1..]);
        }
      }
    } else {
      var t := Put(Inner(es, k), parts[1..], v).entries;
      FindInner(es, k, t, q);
      PutFinds(Inner(es, k), parts[1..], v, if |q| > 1 then q[1..] else [k]);
      BelowKey(q, parts);
    }
  }

  lemma BelowKey(q: seq<Key>, p: seq<Key>)
    requires q != [] && p != []
    ensures q == p <==> q[0] == p[0] && q[1..] == p[1..]
    ensures p <= q <==> q[0] == p[0] && p[1..] <= q[1..]
    ensures |p| > 1 && |q| == 1 ==> q != p
  {
    assert q == [q[0]] + q[1..] && p == [p[0]] + p[1..];
  }

  /** The same in the current table. */
  lemma {:induction false} PutAtFinds(es: seq<Entry>, cur: seq<Key>, parts: seq<Key>, v: Value, q: seq<Key>)
    requires parts != [] && PutAt(es, cur, parts, v).Good? && q != []
    ensures Find(PutAt(es, cur, parts, v).entries, q) == if q == cur + parts then Found(v) else Find(es, q)
    ensures Find(es, cur + parts) == Nothing
    decreases cur
  {
    if cur == [] {
      assert cur + parts == parts;
      PutFinds(es, parts, v, q);
    } else {
      var k := cur[0];
      var t := PutAt(Inner(es, k), cur[1..], parts, v).entries;
      FindInner(es, k, t, q);
      assert (cur + parts)[0] == k && (cur + parts)[1..] == cur[1..] + parts;
      PutAtFinds(Inner(es, k), cur[1..], parts, v, if |q| > 1 then q[1..] else [k]);
      BelowKey(q, cur + parts);
    }
  }

  /** [path] changes no value. */
  lemma {:induction false} OpenTableFinds(es: seq<Entry>, path: seq<Key>, inserted: bool, q: seq<Key>)
    requires OpenTable(es, path, inserted).Good? && q != []
    ensures Find(OpenTable(es, path, inserted).entries, q) == Find(es, q)
    decreases path
  {
    if path != [] {
      var k := path[0];
      if HasTable(es, k) {
        FindInner(es, k, OpenTable(Inner(es, k), path[1..], inserted).entries, q);
        if |q| > 1 {
          OpenTableFinds(Inner(es, k), path[1..], inserted, q[1..]);
        }
      } else {
        var t := OpenTable([], path[1..], true).entries;
        FindNew(es, Entry(k, Table(t)), q);
        if q[0] == k {
          FindOne(Entry(k, Table(t)), q);
          if |q| > 1 {
            OpenTableFinds([], path[1..], true, q[1..]);
            FindNothing(q[1..]);
          }
        }
      }
    }
  }

  /** [[path]] starts an empty table at the path and changes no value elsewhere. */
  lemma {:induction false} OpenArrayFinds(es: seq<Entry>, path: seq<Key>, q: seq<Key>)
    requires path != [] && OpenArray(es, path).Good? && q != []
    ensures Find(OpenArray(es, path).entries, q) == if path <= q then Nothing else Find(es, q)
    decreases path
  {
    var k := path[0];
    BelowKey(q, path);
    if |path| == 1 {
      ArrayGrowsFinds(es, k, q);
    } else if HasTable(es, k) {
      FindInner(es, k, OpenArray(Inner(es, k), path[1..]).entries, q);
      if |q| > 1 {
        OpenArrayFinds(Inner(es, k), path[1..], q[1..]);
      }
    } else {
      var t := OpenArray([], path[1..]).entries;
      FindNew(es, Entry(k, Table(t)), q);
      if q[0] == k {
        FindOne(Entry(k, Table(t)), q);
        if |q| > 1 {
          OpenArrayFinds([], path[1..], q[1..]);
          FindNothing(q[1..]);
        }
      }
    }
  }

  lemma ArrayGrowsFinds(es: seq<Entry>, k: Key, q: seq<Key>)
    requires OpenArray(es, [k]).Good? && q != []
    ensures Find(OpenArray(es, [k]).entries, q) == if q[0] == k then Nothing else Find(es, q)
  {
    if !Has(es, k) {
      FindNew(es, Entry(k, Tables([Body([])])), q);
      if q[0] == k {
        FindOne(Entry(k, Tables([Body([])])), q);
      }
    } else {
      var i := Index(es, k);
      var es' := OpenArray(es, [k]).entries;
      IndexSameKeys(es, es', q[0]);
      if q[0] == k && |q| > 1 {
        assert Inner(es', k) == [];
      }
    }
  }

  /** What one line does to what is found at a path: only its own value is new, and only a new array element hides any. */
  lemma StepFinds(root: seq<Entry>, cur: seq<Key>, line: Line, q: seq<Key>)
    requires Usable(line) && Step(root, cur, line).State? && q != []
    ensures var found := Find(Step(root, cur, line).root, q);
            && (line.Blank? || line.Header? ==> found == Find(root, q))
            && (line.ArrayHeader? ==> found == if line.path <= q then Nothing else Find(root, q))
            && (line.Item? ==> found == if q == cur + line.parts then Found(line.value) else Find(root, q))
    ensures line.Item? ==> Find(root, cur + line.parts) == Nothing
    ensures Step(root, cur, line).cur == if line.Header? || line.ArrayHeader? then line.path else cur
  {
    match line
    case Blank =>
    case Header(p) => OpenTableFinds(root, p, false, q);
    case ArrayHeader(p) => OpenArrayFinds(root, p, q);
    case Item(parts, v) => PutAtFinds(root, cur, parts, v, q);
  }

  /** A value that was read stays, unless a later line starts a new element of an array that it is in. */
  lemma {:induction false} RunKeeps(root: seq<Entry>, cur: seq<Key>, lines: seq<Line>, q: seq<Key>)
    requires AllUsable(lines) && Run(root, cur, lines).State? && q != [] && Find(root, q).Found?
    requires forall i :: 0 <= i < |lines| && lines[i].ArrayHeader? ==> !(lines[i].path <= q)
    ensures Find(Run(root, cur, lines).root, q) == Find(root, q)
    decreases lines
  {
    if lines != [] {
      var st := Step(root, cur, lines[0]);
      StepFinds(root, cur, lines[0], q);
      RunKeeps(st.root, st.cur, lines[1..], q);
    }
  }

  // ---- which lines are refused ----

  /** The entry at a path through tables only. */
  function NodeAt(es: seq<Entry>, path: seq<Key>): Found<Node>
    requires path != []
    decreases path
  {
    if !Has(es, path[0]) then Nothing
    else
      var n := es[Index(es, path[0])].node;
      if |path| == 1 then Found(n) else if n.Table? then NodeAt(n.entries, path[1..]) else Nothing
  }

  /** The first m parts name something that is there, and that is no table if more parts follow. */
  predicate Taken(es: seq<Entry>, parts: seq<Key>, m: nat)
  {
    1 <= m <= |parts| && NodeAt(es, parts[..m]).Found? && (m < |parts| ==> !NodeAt(es, parts[..m]).value.Table?)
  }

  /** key = value is refused exactly if the key is taken or leads through something that is no table. */
  lemma {:induction false} PutFails(es: seq<Entry>, parts: seq<Key>, v: Value)
    requires parts != []
    ensures Put(es, parts, v).Bad? <==> exists m: nat :: Taken(es, parts, m)
    decreases parts
  {
    var k := parts[0];
    assert parts[..1][0] == k;
    if |parts| == 1 || (Has(es, k) && !es[Index(es, k)].node.Table?) {
      if Has(es, k) {
        assert Taken(es, parts, 1);
      }
      NotTaken(es, parts);
    } else if !Has(es, k) {
      PutFails([], parts[1..], v);
      NotTaken(es, parts);
      NotTaken([], parts[1..]);
    } else {
      PutFails(Inner(es, k), parts[1..], v);
      TakenBelow(es, parts);
    }
  }

  lemma NotTaken(es: seq<Entry>, parts: seq<Key>)
    requires parts != []
    ensures !Has(es, parts[0]) ==> forall m: nat :: !Taken(es, parts, m)
  {
    forall m: nat | !Has(es, parts[0])
      ensures !Taken(es, parts, m)
    {
      if 1 <= m <= |parts| {
        assert parts[..m][0] == parts[0];
      }
    }
  }

  lemma TakenBelow(es: seq<Entry>, parts: seq<Key>)
    requires |parts| > 1 && Has(es, parts[0]) && es[Index(es, parts[0])].node.Table?
    ensures (exists m: nat :: Taken(es, parts, m)) <==> exists m: nat :: Taken(Inner(es, parts[0]), parts[1..], m)
  {
    var inner, rest := Inner(es, parts[0]), parts[1..];
    if m: nat :| Taken(es, parts, m) {
      TakenOneBelow(es, parts, m);
      assert Taken(inner, rest, m - 1);
    }
    if m: nat :| Taken(inner, rest, m) {
      TakenOneBelow(es, parts, m + 1);
      assert Taken(es, parts, m + 1);
    }
  }

  lemma TakenOneBelow(es: seq<Entry>, parts: seq<Key>, m: nat)
    requires |parts| > 1 && Has(es, parts[0]) && es[Index(es, parts[0])].node.Table? && 1 <= m <= |parts|
    ensures m == 1 ==> !Taken(es, parts, m)
    ensures m > 1 ==> (Taken(es, parts, m) <==> Taken(Inner(es, parts[0]), parts[1..], m - 1))
  {
    assert parts[..m][0] == parts[0];
    if m > 1 {
      assert parts[..m][1..] == parts[1..][..m - 1];
    }
  }

  predicate HasEmptyPart(path: seq<Key>) { exists i :: 0 <= i < |path| && path[i] == "" }

  /** The first m parts lead to a table in which the next part names something that is no table. */
  predicate Blocked(es: seq<Entry>, path: seq<Key>, m: nat)
  {
    m < |path| && TableAt(es, path[..m]).Found? && Has(TableAt(es, path[..m]).value, path[m]) && !HasTable(TableAt(es, path[..m]).value, path[m])
  }

  lemma BlockedBelow(es: seq<Entry>, path: seq<Key>, n: nat)
    requires path != [] && HasTable(es, path[0]) && n < |path|
    ensures (exists m: nat :: m <= n && Blocked(es, path, m)) <==> exists m: nat :: m + 1 <= n && Blocked(Inner(es, path[0]), path[1..], m)
  {
    var inner, rest := Inner(es, path[0]), path[1..];
    if m: nat :| m <= n && Blocked(es, path, m) {
      BlockedOneBelow(es, path, m);
      assert Blocked(inner, rest, m - 1);
    }
    if m: nat :| m + 1 <= n && Blocked(inner, rest, m) {
      BlockedOneBelow(es, path, m + 1);
      assert Blocked(es, path, m + 1);
    }
  }

  lemma BlockedOneBelow(es: seq<Entry>, path: seq<Key>, m: nat)
    requires path != [] && HasTable(es, path[0]) && m < |path|
    ensures m == 0 ==> !Blocked(es, path, m)
    ensures m > 0 ==> (Blocked(es, path, m) <==> Blocked(Inner(es, path[0]), path[1..], m - 1))
  {
    assert path[..0] == [];
    if m > 0 {
      assert path[..m][0] == path[0] && path[..m][1..] == path[1..][..m - 1];
    }
  }

  lemma NotBlocked(es: seq<Entry>, path: seq<Key>)
    requires path != [] && !HasTable(es, path[0])
    ensures forall m: nat :: Blocked(es, path, m) <==> m == 0 && Has(es, path[0])
  {
    forall m: nat
      ensures Blocked(es, path, m) <==> m == 0 && Has(es, path[0])
    {
      assert path[..0] == [];
      if 0 < m < |path| {
        assert path[..m][0] == path[0];
      }
    }
  }

  lemma EmptyPartBelow(path: seq<Key>)
    requires path != []
    ensures HasEmptyPart(path) <==> path[0] == "" || HasEmptyPart(path[1..])
  {
    if HasEmptyPart(path[1..]) {
      var i :| 0 <= i < |path[1..]| && path[1..][i] == "";
      assert path[i + 1] == "";
    }
    if HasEmptyPart(path) {
      var i :| 0 <= i < |path| && path[i] == "";
      assert i > 0 ==> path[1..][i - 1] == "";
    }
  }

  /**
   * [path] is refused exactly if a part is empty, the path leads through something that is no table, or the table is
   * there already and is empty or holds values.
   */
  lemma {:induction false} OpenTableFails(es: seq<Entry>, path: seq<Key>, inserted: bool)
    ensures OpenTable(es, path, inserted).Bad? <==>
              || HasEmptyPart(path) || (exists m: nat :: m <= |path| && Blocked(es, path, m))
              || (!inserted && TableAt(es, path).Found? && (TableAt(es, path).value == [] || HasValue(TableAt(es, path).value)))
    decreases path
  {
    if path != [] {
      EmptyPartBelow(path);
      if HasTable(es, path[0]) {
        OpenTableFails(Inner(es, path[0]), path[1..], inserted);
        BlockedWhole(es, path);
      } else {
        NotBlocked(es, path);
        if Has(es, path[0]) {
          assert Blocked(es, path, 0);
        } else {
          OpenTableFails([], path[1..], true);
          if |path| > 1 {
            NotBlocked([], path[1..]);
          }
        }
      }
    }
  }

  lemma BlockedWhole(es: seq<Entry>, path: seq<Key>)
    requires path != [] && HasTable(es, path[0])
    ensures (exists m: nat :: m <= |path| && Blocked(es, path, m)) <==> exists m: nat :: m <= |path[1..]| && Blocked(Inner(es, path[0]), path[1..], m)
  {
    BlockedBelow(es, path, |path| - 1);
  }

  /**
   * [[path]] is refused exactly if a part is empty, the path leads through something that is no table, or its last part
   * names something that is no table array.
   */
  lemma {:induction false} OpenArrayFails(es: seq<Entry>, path: seq<Key>)
    requires path != []
    ensures OpenArray(es, path).Bad? <==>
              || HasEmptyPart(path) || (exists m: nat :: m + 1 < |path| && Blocked(es, path, m))
              || NoArrayAt(TableAt(es, path[..|path| - 1]), path[|path| - 1])
    decreases path
  {
    var k := path[0];
    EmptyPartBelow(path);
    if |path| == 1 {
      assert path[..0] == [];
    } else {
      var rest := path[1..];
      assert path[..|path| - 1][0] == k && path[..|path| - 1][1..] == rest[..|rest| - 1];
      if HasTable(es, k) {
        OpenArrayFails(Inner(es, k), rest);
        BlockedBefore(es, path);
      } else {
        NotBlocked(es, path);
        if Has(es, k) {
          assert Blocked(es, path, 0);
        } else {
          OpenArrayFails([], rest);
          NotBlocked([], rest);
          if |rest| > 1 {
            assert rest[..|rest| - 1][0] == rest[0];
          }
        }
      }
    }
  }

  predicate NoArrayAt(t: Found<seq<Entry>>, k: Key) { t.Found? && Has(t.value, k) && !t.value[Index(t.value, k)].node.Tables? }

  lemma BlockedBefore(es: seq<Entry>, path: seq<Key>)
    requires |path| > 1 && HasTable(es, path[0])
    ensures (exists m: nat :: m + 1 < |path| && Blocked(es, path, m)) <==> exists m: nat :: m + 1 < |path[1..]| && Blocked(Inner(es, path[0]), path[1..], m)
  {
    BlockedBelow(es, path, |path| - 2);
  }

  // ---- the lines of a tree ----

  /** The values of a table come first, in iteration order. */
  function ItemLines(es: seq<Entry>): (r: seq<Line>)
    ensures AllUsable(r)
  {
    if es == [] then []
    else if es[0].node.Leaf? then [Item([es[0].key], es[0].node.value)] + ItemLines(es[1..])
    else ItemLines(es[1..])
  }

  /** The lines of a table without its own header, with paths relative to it. */
  function Lines(es: seq<Entry>): (r: seq<Line>)
    ensures AllUsable(r)
    decreases es, 1
  {
    ItemLines(es) + SubLines(es)
  }

  /** Its tables and table arrays follow. */
  function SubLines(es: seq<Entry>): (r: seq<Line>)
    ensures AllUsable(r)
    decreases es, 0
  {
    if es == [] then [] else NodeLines(es[0].key, es[0].node) + SubLines(es[1..])
  }

  function NodeLines(k: Key, n: Node): (r: seq<Line>)
    ensures AllUsable(r)
    decreases n, 0
  {
    match n
    case Leaf(_) => []
    case Table(t) => [Header([k])] + AllBelow(k, Lines(t))
    case Tables(ts) => ElementLines(k, ts)
  }

  function ElementLines(k: Key, ts: seq<Body>): (r: seq<Line>)
    ensures AllUsable(r)
    decreases ts, 0
  {
    if ts == [] then [] else [ArrayHeader([k])] + AllBelow(k, Lines(ts[0].entries)) + ElementLines(k, ts[1..])
  }

  // ---- what the parser makes of them ----

  /** Values first, then tables, all the way down: the order in which the parser inserts. */
  function Ordered(es: seq<Entry>): seq<Entry>
    decreases es, 1
  {
    Items(es) + Subs(es)
  }

  function Items(es: seq<Entry>): seq<Entry>
  {
    if es == [] then [] else if es[0].node.Leaf? then [es[0]] + Items(es[1..]) else Items(es[1..])
  }

  /** No header stands for this node: it is a value or an array of no tables. */
  predicate Headless(n: Node) { n.Leaf? || (n.Tables? && n.elems == []) }

  /** The tables; an array of no tables leaves no trace. */
  function Subs(es: seq<Entry>): seq<Entry>
    decreases es, 0
  {
    if es == [] then []
    else if Headless(es[0].node) then Subs(es[1..])
    else [Entry(es[0].key, OrderedNode(es[0].node))] + Subs(es[1..])
  }

  function OrderedNode(n: Node): (r: Node)
    decreases n, 0
  {
    match n
    case Leaf(_) => n
    case Table(t) => Table(Ordered(t))
    case Tables(ts) => Tables(OrderedAll(ts))
  }

  function OrderedAll(ts: seq<Body>): (r: seq<Body>)
    ensures |r| == |ts|
    decreases ts, 0
  {
    if ts == [] then [] else [Body(Ordered(ts[0].entries))] + OrderedAll(ts[1..])
  }

  /** Keys occur once per table, are not empty and have no unusual control characters. */
  predicate GoodTree(es: seq<Entry>)
    decreases es, 1
  {
    UniqueKeys(es) && GoodEntries(es)
  }

  predicate UniqueKeys(es: seq<Entry>) { forall i, j :: 0 <= i < j < |es| ==> es[i].key != es[j].key }

  predicate GoodEntries(es: seq<Entry>)
    decreases es, 0
  {
    es == [] || (GoodKey(es[0].key) && GoodNode(es[0].node) && GoodEntries(es[1..]))
  }

  predicate GoodNode(n: Node)
    decreases n, 0
  {
    match n
    case Leaf(v) => GoodValue(v)
    case Table(t) => GoodTree(t)
    case Tables(ts) => GoodTables(ts)
  }

  predicate GoodTables(ts: seq<Body>)
    decreases ts, 0
  {
    ts == [] || (GoodTree(ts[0].entries) && GoodTables(ts[1..]))
  }

  /** None of the keys of b is in a. */
  predicate Fresh(a: seq<Entry>, b: seq<Entry>) { forall i :: 0 <= i < |b| ==> !Has(a, b[i].key) }

  lemma {:induction false} IndexAppend(a: seq<Entry>, e: Entry, k: Key)
    ensures Has(a + [e], k) <==> Has(a, k) || e.key == k
    ensures !Has(a, k) && e.key == k ==> Index(a + [e], k) == |a|
    decreases a
  {
    if a == [] {
      assert a + [e] == [e];
    } else {
      assert (a + [e])[0] == a[0] && (a + [e])[1..] == a[1..] + [e];
      IndexAppend(a[1..], e, k);
    }
  }

  /** The values of a table are appended in order. */
  lemma {:induction false} ItemsRun(root: seq<Entry>, es: seq<Entry>)
    requires UniqueKeys(es) && Fresh(root, es)
    ensures Run(root, [], ItemLines(es)) == State(root + Items(es), [])
    decreases es
  {
    if es == [] {
      assert root + [] == root;
    } else {
      var e := es[0];
      if e.node.Leaf? {
        FreshTail(root, e, es);
        assert ItemLines(es)[0] == Item([e.key], e.node.value) && ItemLines(es)[1..] == ItemLines(es[1..]);
        assert !Has(root, e.key);
        ItemsRun(root + [e], es[1..]);
        assert root + [e] + Items(es[1..]) == root + Items(es);
      } else {
        assert Fresh(root, es[1..]);
        ItemsRun(root, es[1..]);
      }
    }
  }

  lemma FreshTail(root: seq<Entry>, e: Entry, es: seq<Entry>)
    requires es != [] && UniqueKeys(es) && Fresh(root, es) && e.key == es[0].key
    ensures Fresh(root + [e], es[1..]) && UniqueKeys(es[1..])
  {
    forall i | 0 <= i < |es[1..]|
      ensures !Has(root + [e], es[1..][i].key)
    {
      IndexAppend(root, e, es[1..][i].key);
    }
  }

  /** None of the tables of es is in root. */
  predicate FreshSubs(root: seq<Entry>, es: seq<Entry>)
  {
    forall i :: 0 <= i < |es| && !es[i].node.Leaf? ==> !Has(root, es[i].key)
  }

  /** The lines of a table, run in a table without its keys, append its entries. */
  lemma {:induction false} LinesRun(root: seq<Entry>, es: seq<Entry>)
    requires GoodTree(es) && Fresh(root, es)
    ensures var st := Run(root, [], Lines(es)); st.State? && st.root == root + Ordered(es)
    decreases es, 2
  {
    ItemsRun(root, es);
    ItemsKeepFresh(root, es, es);
    SubsRun(root + Items(es), [], es);
    RunThen(root, [], ItemLines(es), SubLines(es), Items(es), [], Subs(es));
  }

  lemma {:induction false} LinesRunEmpty(es: seq<Entry>)
    requires GoodTree(es)
    ensures var st := Run([], [], Lines(es)); st.State? && st.root == Ordered(es)
    decreases es, 3
  {
    LinesRun([], es);
    assert [] + Ordered(es) == Ordered(es);
  }

  /** The values put in first do not get in the way of the tables. */
  lemma {:induction false} ItemsKeepFresh(root: seq<Entry>, es: seq<Entry>, all: seq<Entry>)
    requires UniqueKeys(all) && Fresh(root, all) && |es| <= |all| && es == all[|all| - |es|..]
    ensures FreshSubs(root + Items(es), all)
    decreases es
  {
    forall i | 0 <= i < |all| && !all[i].node.Leaf?
      ensures !Has(root + Items(es), all[i].key)
    {
      NotAmongItems(root, es, all, i);
    }
  }

  lemma {:induction false} NotAmongItems(root: seq<Entry>, es: seq<Entry>, all: seq<Entry>, i: nat)
    requires UniqueKeys(all) && |es| <= |all| && es == all[|all| - |es|..] && i < |all| && !all[i].node.Leaf? && !Has(root, all[i].key)
    ensures !Has(root + Items(es), all[i].key)
    decreases es
  {
    if es == [] {
      assert root + [] == root;
    } else if es[0].node.Leaf? {
      assert es[0] == all[|all| - |es|] && es[1..] == all[|all| - |es[1..]|..];
      IndexAppend(root, es[0], all[i].key);
      NotAmongItems(root + [es[0]], es[1..], all, i);
      assert root + Items(es) == root + [es[0]] + Items(es[1..]);
    } else {
      assert es[1..] == all[|all| - |es[1..]|..];
      NotAmongItems(root, es[1..], all, i);
    }
  }

  lemma {:induction false} SubsRun(root: seq<Entry>, cur: seq<Key>, es: seq<Entry>)
    requires UniqueKeys(es) && GoodEntries(es) && FreshSubs(root, es)
    ensures var st := Run(root, cur, SubLines(es)); st.State? && st.root == root + Subs(es)
    decreases es, 1
  {
    if es == [] {
      assert root + [] == root;
    } else {
      var k, n := es[0].key, es[0].node;
      if Headless(n) {
        assert NodeLines(k, n) == [];
        assert SubLines(es) == SubLines(es[1..]);
        assert FreshSubs(root, es[1..]);
        SubsRun(root, cur, es[1..]);
      } else {
        var e := Entry(k, OrderedNode(n));
        var cur1 := NodeRun(root, cur, k, n);
        FreshSubsTail(root, e, es);
        SubsRun(root + [e], cur1, es[1..]);
        RunThen(root, cur, NodeLines(k, n), SubLines(es[1..]), [e], cur1, Subs(es[1..]));
      }
    }
  }

  lemma FreshSubsTail(root: seq<Entry>, e: Entry, es: seq<Entry>)
    requires es != [] && UniqueKeys(es) && FreshSubs(root, es) && e.key == es[0].key
    ensures FreshSubs(root + [e], es[1..]) && UniqueKeys(es[1..])
  {
    forall i | 0 <= i < |es[1..]| && !es[1..][i].node.Leaf?
      ensures !Has(root + [e], es[1..][i].key)
    {
      IndexAppend(root, e, es[1..][i].key);
    }
  }

  lemma {:induction false} NodeRun(root: seq<Entry>, cur: seq<Key>, k: Key, n: Node) returns (cur1: seq<Key>)
    requires !Has(root, k) && k != "" && GoodNode(n) && !Headless(n)
    ensures Run(root, cur, NodeLines(k, n)) == State(root + [Entry(k, OrderedNode(n))], cur1)
    decreases n, 1
  {
    if n.Table? {
      var root1 := root + [Entry(k, Table([]))];
      assert OpenTable(root, [k], false) == Good(root1);
      LinesRunEmpty(n.entries);
      IndexAppend(root, Entry(k, Table([])), k);
      RunOpened(root, root, cur, k, Table([]), Header([k]), Lines(n.entries), Ordered(n.entries));
    } else {
      ElementsRun(root, cur, k, [], n.elems);
      assert [] + OrderedAll(n.elems) == OrderedAll(n.elems);
    }
    cur1 := Run(root, cur, NodeLines(k, n)).cur;
  }

  /** A header that opens an empty table below k, followed by the lines of that table. */
  lemma RunOpened(start: seq<Entry>, root: seq<Entry>, cur: seq<Key>, k: Key, n: Node, header: Line, lines: seq<Line>, t: seq<Entry>)
    requires !Has(root, k) && k != "" && Usable(header) && AllUsable(lines)
    requires (n.Table? && n.entries == []) || (n.Tables? && n.elems != [] && n.elems[|n.elems| - 1] == Body([]))
    requires Step(start, cur, header) == State(root + [Entry(k, n)], [k])
    requires Run([], [], lines).State? && Run([], [], lines).root == t
    ensures AllUsable([header] + AllBelow(k, lines))
    ensures var st := Run(start, cur, [header] + AllBelow(k, lines));
            st.State? && st.root == root + [Entry(k, if n.Table? then Table(t) else Tables(n.elems[|n.elems| - 1 := Body(t)]))]
  {
    var es := root + [Entry(k, n)];
    IndexAppend(root, Entry(k, n), k);
    RunBelow(es, k, [], lines);
    var all := [header] + AllBelow(k, lines);
    assert all[0] == header && all[1..] == AllBelow(k, lines);
    assert [k] + [] == [k];
    assert WithInner(es, k, t) == root + [WithInner(es, k, t)[|root|]];
  }

  /** The table array with the elements read so far; it is not there before the first. */
  function SoFar(root: seq<Entry>, k: Key, done: seq<Body>): seq<Entry>
  {
    if done == [] then root else root + [Entry(k, Tables(done))]
  }

  /** Each [[k]] appends an empty element. */
  lemma OpensElement(root: seq<Entry>, cur: seq<Key>, k: Key, done: seq<Body>)
    requires !Has(root, k) && k != ""
    ensures Step(SoFar(root, k, done), cur, ArrayHeader([k])) == State(root + [Entry(k, Tables(done + [Body([])]))], [k])
  {
    if done == [] {
      assert done + [Body([])] == [Body([])];
    } else {
      var e := Entry(k, Tables(done));
      IndexAppend(root, e, k);
      assert (root + [e])[|root| := Entry(k, Tables(done + [Body([])]))] == root + [Entry(k, Tables(done + [Body([])]))];
    }
  }

  /** One [[k]] with the lines of its table appends that table. */
  lemma ElementRun(root: seq<Entry>, cur: seq<Key>, k: Key, done: seq<Body>, lines: seq<Line>, t: seq<Entry>) returns (cur1: seq<Key>)
    requires !Has(root, k) && k != "" && AllUsable(lines) && Run([], [], lines).State? && Run([], [], lines).root == t
    ensures AllUsable([ArrayHeader([k])] + AllBelow(k, lines))
    ensures Run(SoFar(root, k, done), cur, [ArrayHeader([k])] + AllBelow(k, lines)) == State(SoFar(root, k, done + [Body(t)]), cur1)
  {
    var grown := done + [Body([])];
    OpensElement(root, cur, k, done);
    RunOpened(SoFar(root, k, done), root, cur, k, Tables(grown), ArrayHeader([k]), lines, t);
    assert grown[|grown| - 1 := Body(t)] == done + [Body(t)];
    cur1 := Run(SoFar(root, k, done), cur, [ArrayHeader([k])] + AllBelow(k, lines)).cur;
  }

  /** The elements of a table array, after those in `done`. */
  lemma {:induction false} ElementsRun(root: seq<Entry>, cur: seq<Key>, k: Key, done: seq<Body>, ts: seq<Body>)
    requires !Has(root, k) && k != "" && GoodTables(ts)
    ensures var st := Run(SoFar(root, k, done), cur, ElementLines(k, ts)); st.State? && st.root == SoFar(root, k, done + OrderedAll(ts))
    decreases ts, 1
  {
    if ts == [] {
      assert done + [] == done;
    } else {
      var t := Ordered(ts[0].entries);
      LinesRunEmpty(ts[0].entries);
      var cur1 := ElementRun(root, cur, k, done, Lines(ts[0].entries), t);
      var first := [ArrayHeader([k])] + AllBelow(k, Lines(ts[0].entries));
      ElementsRun(root, cur1, k, done + [Body(t)], ts[1..]);
      RunBoth(SoFar(root, k, done), cur, first, ElementLines(k, ts[1..]), SoFar(root, k, done + [Body(t)]), cur1);
      Assoc(done, [Body(t)], OrderedAll(ts[1..]));
    }
  }

  // ---- the tree without its order ----

  /** The tree as finite maps. */
  datatype View = LeafView(value: Value) | TableView(table: map<Key, View>) | TablesView(tables: seq<map<Key, View>>)

  function ViewOf(es: seq<Entry>): map<Key, View>
    decreases es, 0
  {
    if es == [] then map[] else ViewOf(es[1..])[es[0].key := NodeView(es[0].node)]
  }

  function NodeView(n: Node): View
    decreases n, 0
  {
    match n
    case Leaf(v) => LeafView(v)
    case Table(t) => TableView(ViewOf(t))
    case Tables(ts) => TablesView(ViewsOf(ts))
  }

  function ViewsOf(ts: seq<Body>): seq<map<Key, View>>
    decreases ts, 0
  {
    if ts == [] then [] else [ViewOf(ts[0].entries)] + ViewsOf(ts[1..])
  }

  /** An entry counts the same wherever it stands, as long as its key is nowhere else. */
  lemma {:induction false} ViewInsert(a: seq<Entry>, e: Entry, b: seq<Entry>)
    requires forall i :: 0 <= i < |a| ==> a[i].key != e.key
    ensures ViewOf(a + [e] + b) == ViewOf(a + b)[e.key := NodeView(e.node)]
    decreases a
  {
    if a == [] {
      assert a + [e] + b == [e] + b && a + b == b && ([e] + b)[1..] == b;
    } else {
      assert (a + [e] + b)[0] == a[0] && (a + [e] + b)[1..] == a[1..] + [e] + b;
      assert (a + b)[0] == a[0] && (a + b)[1..] == a[1..] + b;
      ViewInsert(a[1..], e, b);
    }
  }

  lemma {:induction false} ItemKeys(es: seq<Entry>, k: Key)
    requires forall i :: 0 <= i < |es| ==> es[i].key != k
    ensures forall i :: 0 <= i < |Items(es)| ==> Items(es)[i].key != k
    decreases es
  {
    if es != [] {
      ItemKeys(es[1..], k);
    }
  }

  /** No table array is empty, all the way down. */
  predicate Full(es: seq<Entry>)
    decreases es, 0
  {
    es == [] || (FullNode(es[0].node) && Full(es[1..]))
  }

  predicate FullNode(n: Node)
    decreases n, 0
  {
    match n
    case Leaf(_) => true
    case Table(t) => Full(t)
    case Tables(ts) => ts != [] && FullTables(ts)
  }

  predicate FullTables(ts: seq<Body>)
    decreases ts, 0
  {
    ts == [] || (Full(ts[0].entries) && FullTables(ts[1..]))
  }

  /** What is left of an entry once values come first and empty table arrays are gone. */
  lemma {:induction false} OrderedHead(es: seq<Entry>)
    requires es != []
    ensures es[0].node.Leaf? ==> Ordered(es) == [es[0]] + Ordered(es[1..])
    ensures es[0].node == Tables([]) ==> Ordered(es) == Ordered(es[1..])
    ensures !Headless(es[0].node) ==> Ordered(es) == Items(es[1..]) + [Entry(es[0].key, OrderedNode(es[0].node))] + Subs(es[1..])
  {
    if es[0].node.Leaf? {
      Assoc([es[0]], Items(es[1..]), Subs(es[1..]));
    } else if !Headless(es[0].node) {
      Assoc(Items(es[1..]), [Entry(es[0].key, OrderedNode(es[0].node))], Subs(es[1..]));
    }
  }

  lemma {:induction false} OrderedKeys(es: seq<Entry>, k: Key)
    requires UniqueKeys(es) && forall i :: 0 <= i < |es| ==> es[i].key != k
    ensures k !in ViewOf(Ordered(es)) && k !in ViewOf(es)
    decreases es
  {
    if es != [] {
      OrderedKeys(es[1..], k);
      OrderedHead(es);
      ItemKeys(es[1..], k);
      ItemKeys(es[1..], es[0].key);
      if !Headless(es[0].node) {
        ViewInsert(Items(es[1..]), Entry(es[0].key, OrderedNode(es[0].node)), Subs(es[1..]));
      }
    }
  }

  /** Putting values first and dropping empty table arrays changes no table exactly when there are none to drop. */
  lemma {:induction false} OrderedView(es: seq<Entry>)
    requires GoodTree(es)
    ensures ViewOf(Ordered(es)) == ViewOf(es) <==> Full(es)
    decreases es, 1
  {
    if es != [] {
      var e, more := es[0], es[1..];
      OrderedView(more);
      OrderedNodeView(e.node);
      OrderedHead(es);
      OrderedKeys(more, e.key);
      if !Headless(e.node) {
        ItemKeys(more, e.key);
        ViewInsert(Items(more), Entry(e.key, OrderedNode(e.node)), Subs(more));
      }
      SameMap(ViewOf(Ordered(more)), ViewOf(more), e.key, NodeView(OrderedNode(e.node)), NodeView(e.node));
    }
  }

  /** Maps that gain the same new key are equal exactly when they were and what they gain is. */
  lemma SameMap(a: map<Key, View>, b: map<Key, View>, k: Key, v: View, w: View)
    requires k !in a && k !in b
    ensures a[k := v] == b[k := w] <==> a == b && v == w
  {
    if a[k := v] == b[k := w] {
      assert a == a[k := v] - {k} && b == b[k := w] - {k};
      assert a[k := v][k] == v && b[k := w][k] == w;
    }
  }

  lemma {:induction false} OrderedNodeView(n: Node)
    requires GoodNode(n)
    ensures !Headless(n) ==> (NodeView(OrderedNode(n)) == NodeView(n) <==> FullNode(n))
    decreases n, 0
  {
    match n
    case Leaf(_) =>
    case Table(t) => OrderedView(t);
    case Tables(ts) => OrderedViews(ts);
  }

  lemma {:induction false} OrderedViews(ts: seq<Body>)
    requires GoodTables(ts)
    ensures ViewsOf(OrderedAll(ts)) == ViewsOf(ts) <==> FullTables(ts)
    decreases ts, 0
  {
    if ts != [] {
      OrderedView(ts[0].entries);
      OrderedViews(ts[1..]);
      var a, b := ViewsOf(OrderedAll(ts)), ViewsOf(ts);
      assert a[0] == ViewOf(Ordered(ts[0].entries)) && a[1..] == ViewsOf(OrderedAll(ts[1..]));
      assert b[0] == ViewOf(ts[0].entries) && b[1..] == ViewsOf(ts[1..]);
      assert a == [a[0]] + a[1..] && b == [b[0]] + b[1..];
    }
  }

  /**
   * Running the lines of a tree in an empty table gives the tree without its empty table arrays, whatever the order of
   * its entries; so it gives the tree exactly when no table array is empty.
   */
  lemma TreeReadsBack(es: seq<Entry>)
    requires GoodTree(es)
    ensures var st := Run([], [], Lines(es)); st.State? && st.root == Ordered(es) && (ViewOf(st.root) == ViewOf(es) <==> Full(es))
  {
    LinesRun([], es);
    assert [] + Ordered(es) == Ordered(es);
    OrderedView(es);
  }
}
