/**
 * The child table of a ramfs directory. The source keeps it in a
 * `BTreeMap<String, VfsNodeRef>`; here it is a sequence of entries kept in
 * strictly ascending name order, whose abstract view is the map `ToMap`.
 * The order matters: directory listings expose it.
 */
module ChildTable {

  /** Identity of a node in the filesystem heap (the source compares `Arc`s by address). */
  type NodeId = nat

  datatype Entry = Entry(name: string, node: NodeId)

  /**
   * Lexicographic order on names, a proper prefix coming first. Rust's `str`
   * ordering compares UTF-8 bytes, which orders scalar values as comparing
   * code points does, so this is the order of the source's `BTreeMap`.
   */
  predicate NameLess(a: string, b: string)
    decreases |a|
  {
    |b| > 0 && (|a| == 0 || a[0] < b[0] || (a[0] == b[0] && NameLess(a[1..], b[1..])))
  }

  lemma {:induction false} NameLessIrreflexive(a: string)
    ensures !NameLess(a, a)
    decreases |a|
  {
    if |a| > 0 {
      NameLessIrreflexive(a[1..]);
    }
  }

  lemma {:induction false} NameLessTransitive(a: string, b: string, c: string)
    requires NameLess(a, b) && NameLess(b, c)
    ensures NameLess(a, c)
    decreases |a|
  {
    if |a| > 0 && a[0] == b[0] && b[0] == c[0] {
      NameLessTransitive(a[1..], b[1..], c[1..]);
    }
  }

  lemma {:induction false} NameLessTotal(a: string, b: string)
    requires a != b
    ensures NameLess(a, b) || NameLess(b, a)
    decreases |a|
  {
    if |a| > 0 && |b| > 0 && a[0] == b[0] {
      assert a == [a[0]] + a[1..] && b == [b[0]] + b[1..];
      NameLessTotal(a[1..], b[1..]);
    }
  }

  lemma NameLessAsymmetric(a: string, b: string)
    requires NameLess(a, b)
    ensures !NameLess(b, a)
  {
    if NameLess(b, a) {
      NameLessTransitive(a, b, a);
      NameLessIrreflexive(a);
    }
  }

  /** Names strictly ascending: this is what keeps them unique. */
  ghost predicate Sorted(es: seq<Entry>)
  {
    forall i, j :: 0 <= i < j < |es| ==> NameLess(es[i].name, es[j].name)
  }

  /** The table as a map from name to node. */
  function ToMap(es: seq<Entry>): map<string, NodeId>
  {
    if es == [] then map[] else ToMap(es[1..])[es[0].name := es[0].node]
  }

  /** Every entry's name is a key, and every key comes from an entry holding that key's node. */
  lemma {:induction false} ToMapEntries(es: seq<Entry>)
    ensures forall i :: 0 <= i < |es| ==> es[i].name in ToMap(es)
    ensures forall n :: n in ToMap(es) ==> Entry(n, ToMap(es)[n]) in es
  {
    if es != [] {
      ToMapEntries(es[1..]);
      assert forall i :: 1 <= i < |es| ==> es[i] == es[1..][i - 1];
    }
  }

  /** The names in table order (`BTreeMap::keys`). */
  function Names(es: seq<Entry>): (ns: seq<string>)
    ensures |ns| == |es|
    ensures forall i :: 0 <= i < |es| ==> ns[i] == es[i].name
  {
    seq(|es|, i requires 0 <= i < |es| => es[i].name)
  }

  lemma SortedTail(es: seq<Entry>)
    requires Sorted(es) && |es| > 0
    ensures Sorted(es[1..])
    ensures forall e :: e in es[1..] ==> NameLess(es[0].name, e.name)
  {
  }

  /** The first name of a sorted table does not occur again after it. */
  lemma HeadNotInTail(es: seq<Entry>)
    requires Sorted(es) && |es| > 0
    ensures es[0].name !in ToMap(es[1..])
    ensures ToMap(es[1..]) == ToMap(es) - {es[0].name}
  {
    var x, m := es[0].name, ToMap(es[1..]);
    assert x !in m by {
      ToMapEntries(es[1..]);
      if x in m {
        var e := Entry(x, m[x]);
        assert e in es[1..];
        var j :| 0 <= j < |es[1..]| && es[1..][j] == e;
        assert es[j + 1] == e;
        NameLessIrreflexive(x);
      }
    }
    assert ToMap(es) == m[x := es[0].node];
    assert forall n :: n in m <==> n in ToMap(es) - {x};
  }

  lemma BelowAll(name: string, es: seq<Entry>)
    requires Sorted(es) && |es| > 0 && NameLess(name, es[0].name)
    ensures forall e :: e in es ==> NameLess(name, e.name)
  {
    forall e | e in es
      ensures NameLess(name, e.name)
    {
      var j :| 0 <= j < |es| && es[j] == e;
      if j > 0 {
        NameLessTransitive(name, es[0].name, e.name);
      }
    }
  }

  /** `BTreeMap::insert`: adds `name`, or replaces the node stored under it. */
  function Insert(es: seq<Entry>, name: string, id: NodeId): (r: seq<Entry>)
    requires Sorted(es)
    ensures Sorted(r)
    ensures ToMap(r) == ToMap(es)[name := id]
    ensures forall e :: e in r ==> e == Entry(name, id) || e in es
  {
    if es == [] then [Entry(name, id)]
    else if name == es[0].name then
      SortedTail(es);
      ConsSorted(Entry(name, id), es[1..]);
      ReplaceHead(es, id);
      [Entry(name, id)] + es[1..]
    else if NameLess(name, es[0].name) then
      BelowAll(name, es);
      ConsSorted(Entry(name, id), es);
      ConsToMap(Entry(name, id), es);
      [Entry(name, id)] + es
    else
      NameLessTotal(name, es[0].name);
      SortedTail(es);
      var tail := Insert(es[1..], name, id);
      InsertBehindHead(es, name, id, tail);
      [es[0]] + tail
  }

  /** Replacing the node of the first entry rebinds its name. */
  lemma ReplaceHead(es: seq<Entry>, id: NodeId)
    requires |es| > 0
    ensures ToMap([Entry(es[0].name, id)] + es[1..]) == ToMap(es)[es[0].name := id]
  {
    ConsToMap(Entry(es[0].name, id), es[1..]);
    var m: map<string, NodeId> := ToMap(es[1..]);
    assert ToMap(es) == m[es[0].name := es[0].node];
    assert m[es[0].name := es[0].node][es[0].name := id] == m[es[0].name := id];
  }

  /** Inserting `name` behind a first entry named below it keeps that entry in front. */
  lemma InsertBehindHead(es: seq<Entry>, name: string, id: NodeId, tail: seq<Entry>)
    requires Sorted(es) && |es| > 0 && NameLess(es[0].name, name)
    requires Sorted(tail) && ToMap(tail) == ToMap(es[1..])[name := id]
    requires forall e :: e in tail ==> e == Entry(name, id) || e in es[1..]
    ensures Sorted([es[0]] + tail)
    ensures ToMap([es[0]] + tail) == ToMap(es)[name := id]
    ensures forall e :: e in [es[0]] + tail ==> e == Entry(name, id) || e in es
  {
    SortedTail(es);
    ConsSorted(es[0], tail);
    ConsToMap(es[0], tail);
    ConsToMap(es[0], es[1..]);
    assert es == [es[0]] + es[1..];
    NameLessIrreflexive(name);
    MapUpdateCommute(ToMap(es[1..]), es[0].name, es[0].node, name, id);
  }

  /** Binding two different keys commutes. */
  lemma MapUpdateCommute<K, V>(m: map<K, V>, a: K, v: V, k: K, w: V)
    requires a != k
    ensures m[k := w][a := v] == m[a := v][k := w]
  {
  }

  /** `BTreeMap::remove`: drops the entry named `name`, if any. */
  function Remove(es: seq<Entry>, name: string): (r: seq<Entry>)
    requires Sorted(es)
    ensures Sorted(r)
    ensures ToMap(r) == ToMap(es) - {name}
    ensures forall e :: e in r ==> e in es && e.name != name
  {
    if es == [] then []
    else if es[0].name == name then
      RemoveHead(es);
      es[1..]
    else
      SortedTail(es);
      var tail := Remove(es[1..], name);
      RemoveBelowHead(es, name, tail);
      [es[0]] + tail
  }

  /** Dropping the first entry of a sorted table drops its name and nothing else. */
  lemma RemoveHead(es: seq<Entry>)
    requires Sorted(es) && |es| > 0
    ensures Sorted(es[1..])
    ensures ToMap(es[1..]) == ToMap(es) - {es[0].name}
    ensures forall e :: e in es[1..] ==> e in es && e.name != es[0].name
  {
    HeadNotInTail(es);
    SortedTail(es);
    forall e | e in es[1..]
      ensures e.name != es[0].name
    {
      if e.name == es[0].name {
        NameLessIrreflexive(e.name);
      }
    }
  }

  /** Removing `name` behind a first entry with another name keeps that entry in front. */
  lemma RemoveBelowHead(es: seq<Entry>, name: string, tail: seq<Entry>)
    requires Sorted(es) && |es| > 0 && es[0].name != name
    requires Sorted(tail) && ToMap(tail) == ToMap(es[1..]) - {name}
    requires forall e :: e in tail ==> e in es[1..] && e.name != name
    ensures Sorted([es[0]] + tail)
    ensures ToMap([es[0]] + tail) == ToMap(es) - {name}
    ensures forall e :: e in [es[0]] + tail ==> e in es && e.name != name
  {
    SortedTail(es);
    ConsSorted(es[0], tail);
    ConsToMap(es[0], tail);
    ConsToMap(es[0], es[1..]);
    assert es == [es[0]] + es[1..];
    MapRemoveUpdate(ToMap(es[1..]), es[0].name, es[0].node, name);
  }

  /** Removing one key and binding another commute. */
  lemma MapRemoveUpdate<K, V>(m: map<K, V>, a: K, v: V, k: K)
    requires a != k
    ensures (m - {k})[a := v] == m[a := v] - {k}
  {
  }

  /** An entry named below every entry of a sorted table can go in front of it. */
  lemma ConsSorted(x: Entry, tail: seq<Entry>)
    requires Sorted(tail) && forall e :: e in tail ==> NameLess(x.name, e.name)
    ensures Sorted([x] + tail)
  {
    var r := [x] + tail;
    forall i, j | 0 <= i < j < |r|
      ensures NameLess(r[i].name, r[j].name)
    {
      assert r[j] == tail[j - 1];
      if i > 0 {
        assert r[i] == tail[i - 1];
      }
    }
  }

  /** The map of a table with an entry in front: that entry's name bound to its node. */
  lemma ConsToMap(x: Entry, tail: seq<Entry>)
    ensures ToMap([x] + tail) == ToMap(tail)[x.name := x.node]
  {
    assert ([x] + tail)[1..] == tail;
  }

  /** A sorted table is determined by the map it represents. */
  lemma {:induction false} SameMapSameTable(a: seq<Entry>, b: seq<Entry>)
    requires Sorted(a) && Sorted(b) && ToMap(a) == ToMap(b)
    ensures a == b
    decreases |a|
  {
    ToMapEntries(a);
    ToMapEntries(b);
    if a != [] && b != [] {
      var x, y := a[0].name, b[0].name;
      if x != y {
        assert Entry(x, ToMap(b)[x]) in b[1..];
        assert Entry(y, ToMap(a)[y]) in a[1..];
        SortedTail(a);
        SortedTail(b);
        NameLessAsymmetric(y, x);
      }
      assert a[0] == Entry(x, ToMap(a)[x]) == b[0];
      HeadNotInTail(a);
      HeadNotInTail(b);
      SortedTail(a);
      SortedTail(b);
      SameMapSameTable(a[1..], b[1..]);
      assert a == [a[0]] + a[1..] && b == [b[0]] + b[1..];
    }
  }

  /** Taking an entry out and putting it back yields the very same table. */
  lemma RemoveThenInsert(es: seq<Entry>, name: string)
    requires Sorted(es) && name in ToMap(es)
    ensures Insert(Remove(es, name), name, ToMap(es)[name]) == es
  {
    var m := ToMap(es);
    var r := Remove(es, name);
    var back := Insert(r, name, m[name]);
    MapRestore(m, name);
    SameMapSameTable(back, es);
  }

  /** Removing a key and binding it again to its value gives back the map. */
  lemma MapRestore<K, V>(m: map<K, V>, k: K)
    requires k in m
    ensures (m - {k})[k := m[k]] == m
  {
  }
}
