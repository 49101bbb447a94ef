/** `AddressBook`: records keyed by contact name. The dictionary is modelled
    as a sequence of entries with distinct keys, in the dictionary's
    enumeration order: a new key goes to the end, an overwritten key keeps
    its place. */
module AddressBook {
  import opened Wrappers
  import opened Seqs
  import opened Records

  datatype Entry = Entry(key: string, record: Record)

  /** The entries and `page_size`. */
  datatype Book = Book(entries: seq<Entry>, pageSize: nat)

  /** `AddressBook()`: an empty dictionary, with pages of five. */
  function EmptyBook(): (b: Book)
    ensures KeysUnique(b.entries) && b.pageSize == 5
    ensures forall name :: Find(b, name) == None
  {
    Book([], 5)
  }

  function Keys(entries: seq<Entry>): (ks: seq<string>)
    ensures |ks| == |entries|
    ensures forall i :: 0 <= i < |entries| ==> ks[i] == entries[i].key
  {
    seq(|entries|, i requires 0 <= i < |entries| => entries[i].key)
  }

  /** No two entries share a key, as in a dictionary. */
  predicate KeysUnique(entries: seq<Entry>) {
    forall i, j :: 0 <= i < j < |entries| ==> entries[i].key != entries[j].key
  }

  /** The dictionary the entries stand for: each entry stored in turn. */
  function AsMap(entries: seq<Entry>): (m: map<string, Record>)
    ensures forall k :: k in m <==> k in Keys(entries)
  {
    if |entries| == 0 then map[]
    else
      var n := |entries| - 1;
      var last := entries[n];
      var m := AsMap(entries[..n])[last.key := last.record];
      assert Keys(entries) == Keys(entries[..n]) + [last.key];
      m
  }

  /** With distinct keys, each entry's record is what the dictionary holds
      under its key. */
  lemma {:induction false} AsMapAt(entries: seq<Entry>, i: nat)
    requires KeysUnique(entries) && i < |entries|
    ensures entries[i].key in AsMap(entries) && AsMap(entries)[entries[i].key] == entries[i].record
    decreases |entries|
  {
    var n := |entries| - 1;
    if i < n {
      var init := entries[..n];
      assert init[i] == entries[i];
      assert KeysUnique(init) by {
        forall a, b | 0 <= a < b < |init|
          ensures init[a].key != init[b].key
        {
          assert init[a] == entries[a] && init[b] == entries[b];
        }
      }
      AsMapAt(init, i);
    }
  }

  /** `add_record`: store `r` under its name, replacing any record there. */
  function AddRecord(b: Book, r: Record): (b': Book)
    requires KeysUnique(b.entries)
    ensures KeysUnique(b'.entries) && b'.pageSize == b.pageSize
    ensures AsMap(b'.entries) == AsMap(b.entries)[r.name := r]
    ensures r.name in Keys(b.entries) ==>
              var i := IndexOf(Keys(b.entries), r.name).value;
              b'.entries == b.entries[i := Entry(r.name, r)]
    ensures r.name !in Keys(b.entries) ==> b'.entries == b.entries + [Entry(r.name, r)]
  {
    var es := b.entries;
    match IndexOf(Keys(es), r.name)
    case Some(i) =>
      var es' := es[i := Entry(r.name, r)];
      AddRecordOverwrites(es, i, r);
      Book(es', b.pageSize)
    case None =>
      var es' := es + [Entry(r.name, r)];
      assert es'[..|es|] == es;
      Book(es', b.pageSize)
  }

  lemma AddRecordOverwrites(es: seq<Entry>, i: nat, r: Record)
    requires KeysUnique(es) && i < |es| && es[i].key == r.name
    ensures KeysUnique(es[i := Entry(r.name, r)])
    ensures AsMap(es[i := Entry(r.name, r)]) == AsMap(es)[r.name := r]
  {
    var es' := es[i := Entry(r.name, r)];
    assert Keys(es') == Keys(es);
    forall k | k in AsMap(es')
      ensures AsMap(es')[k] == AsMap(es)[r.name := r][k]
    {
      OverwriteValue(es, i, r, k);
    }
  }

  lemma OverwriteValue(es: seq<Entry>, i: nat, r: Record, k: string)
    requires KeysUnique(es) && i < |es| && es[i].key == r.name
    requires KeysUnique(es[i := Entry(r.name, r)]) && k in AsMap(es[i := Entry(r.name, r)])
    ensures AsMap(es[i := Entry(r.name, r)])[k] == AsMap(es)[r.name := r][k]
  {
    var es' := es[i := Entry(r.name, r)];
    var j := IndexOf(Keys(es'), k).value;
    AsMapAt(es', j);
    AsMapAt(es, j);
  }

  /** `find`: the record stored under `name`, or None. */
  function Find(b: Book, name: string): (r: Option<Record>)
    requires KeysUnique(b.entries)
    ensures r == if name in AsMap(b.entries) then Some(AsMap(b.entries)[name]) else None
  {
    match IndexOf(Keys(b.entries), name)
    case None => None
    case Some(i) =>
      AsMapAt(b.entries, i);
      Some(b.entries[i].record)
  }

  /** `delete`: drop the entry under `name` if there is one; an absent name
      leaves the book as it was. */
  function Delete(b: Book, name: string): (b': Book)
    requires KeysUnique(b.entries)
    ensures KeysUnique(b'.entries) && b'.pageSize == b.pageSize
    ensures AsMap(b'.entries) == AsMap(b.entries) - {name}
    ensures name !in AsMap(b.entries) ==> b' == b
    ensures name in AsMap(b.entries) ==>
              var i := IndexOf(Keys(b.entries), name).value;
              b'.entries == RemoveAt(b.entries, i)
  {
    match IndexOf(Keys(b.entries), name)
    case None => b
    case Some(i) =>
      DeleteRemovesKey(b.entries, i);
      Book(RemoveAt(b.entries, i), b.pageSize)
  }

  lemma DeleteRemovesKey(es: seq<Entry>, i: nat)
    requires KeysUnique(es) && i < |es|
    ensures KeysUnique(RemoveAt(es, i))
    ensures AsMap(RemoveAt(es, i)) == AsMap(es) - {es[i].key}
  {
    RemoveAtKeepsUnique(es, i);
    RemoveAtMapKeys(es, i);
    forall k | k in AsMap(RemoveAt(es, i))
      ensures k in AsMap(es) && AsMap(RemoveAt(es, i))[k] == AsMap(es)[k]
    {
      RemoveAtValue(es, i, k);
    }
    MapWithout(AsMap(RemoveAt(es, i)), AsMap(es), es[i].key);
  }

  /** Two maps that agree except that the first lacks `x` are related by `-`. */
  lemma MapWithout<K, V>(m': map<K, V>, m: map<K, V>, x: K)
    requires forall k :: k in m' <==> k in m && k != x
    requires forall k :: k in m' ==> m'[k] == m[k]
    ensures m' == m - {x}
  {
  }

  lemma RemoveAtMapKeys(es: seq<Entry>, i: nat)
    requires KeysUnique(es) && i < |es|
    ensures forall k :: k in AsMap(RemoveAt(es, i)) <==> k in AsMap(es) && k != es[i].key
  {
    RemoveAtKeys(es, i);
  }

  lemma RemoveAtValue(es: seq<Entry>, i: nat, k: string)
    requires KeysUnique(es) && i < |es|
    requires KeysUnique(RemoveAt(es, i)) && k in AsMap(RemoveAt(es, i))
    ensures k in AsMap(es) && AsMap(RemoveAt(es, i))[k] == AsMap(es)[k]
  {
    var es' := RemoveAt(es, i);
    var j := IndexOf(Keys(es'), k).value;
    var j0 := if j < i then j else j + 1;
    assert es'[j] == es[j0];
    AsMapAt(es', j);
    AsMapAt(es, j0);
  }

  lemma RemoveAtKeepsUnique(es: seq<Entry>, i: nat)
    requires KeysUnique(es) && i < |es|
    ensures KeysUnique(RemoveAt(es, i))
  {
    var es' := RemoveAt(es, i);
    forall a, c | 0 <= a < c < |es'|
      ensures es'[a].key != es'[c].key
    {
      var a0 := if a < i then a else a + 1;
      var c0 := if c < i then c else c + 1;
      assert es'[a] == es[a0] && es'[c] == es[c0];
    }
  }

  lemma RemoveAtKeys(es: seq<Entry>, i: nat)
    requires KeysUnique(es) && i < |es|
    ensures forall k :: k in Keys(RemoveAt(es, i)) <==> k in Keys(es) && k != es[i].key
  {
    forall k
      ensures k in Keys(RemoveAt(es, i)) <==> k in Keys(es) && k != es[i].key
    {
      RemoveAtKeyMember(es, i, k);
    }
  }

  lemma RemoveAtKeyMember(es: seq<Entry>, i: nat, k: string)
    requires KeysUnique(es) && i < |es|
    ensures k in Keys(RemoveAt(es, i)) <==> k in Keys(es) && k != es[i].key
  {
    if k in Keys(es) && k != es[i].key {
      KeyKept(es, i, IndexOf(Keys(es), k).value);
    }
    if k in Keys(RemoveAt(es, i)) {
      KeyFromOriginal(es, i, IndexOf(Keys(RemoveAt(es, i)), k).value);
    }
  }

  lemma KeyKept(es: seq<Entry>, i: nat, j: nat)
    requires i < |es| && j < |es| && j != i
    ensures es[j].key in Keys(RemoveAt(es, i))
  {
    var j' := if j < i then j else j - 1;
    assert RemoveAt(es, i)[j'] == es[j];
    assert Keys(RemoveAt(es, i))[j'] == es[j].key;
  }

  lemma KeyFromOriginal(es: seq<Entry>, i: nat, j: nat)
    requires KeysUnique(es) && i < |es| && j < |es| - 1
    ensures var k := RemoveAt(es, i)[j].key; k in Keys(es) && k != es[i].key
  {
    var j0 := if j < i then j else j + 1;
    assert RemoveAt(es, i)[j] == es[j0];
    assert Keys(es)[j0] == es[j0].key;
  }

  /** `list(self.data.values())`: the records in enumeration order. Each
      one is what `find` returns for the name it is stored under. */
  function Values(b: Book): (rs: seq<Record>)
    requires KeysUnique(b.entries)
    ensures |rs| == |b.entries|
    ensures forall i :: 0 <= i < |rs| ==> rs[i] == b.entries[i].record
    ensures forall i :: 0 <= i < |rs| ==> Find(b, b.entries[i].key) == Some(rs[i])
  {
    ValuesFound(b.entries);
    seq(|b.entries|, i requires 0 <= i < |b.entries| => b.entries[i].record)
  }

  /** Every entry's record is what the dictionary holds under its key. */
  lemma ValuesFound(es: seq<Entry>)
    requires KeysUnique(es)
    ensures forall i :: 0 <= i < |es| ==> es[i].key in AsMap(es) && AsMap(es)[es[i].key] == es[i].record
  {
    forall i | 0 <= i < |es|
      ensures es[i].key in AsMap(es) && AsMap(es)[es[i].key] == es[i].record
    {
      AsMapAt(es, i);
    }
  }

  /** After `add_record(r)`, `find(r.name)` returns `r` and every other name
      finds what it found before. */
  lemma AddThenFind(b: Book, r: Record, name: string)
    requires KeysUnique(b.entries)
    ensures Find(AddRecord(b, r), r.name) == Some(r)
    ensures name != r.name ==> Find(AddRecord(b, r), name) == Find(b, name)
  {
  }

  /** After `delete(name)`, `find(name)` is None and every other name finds
      what it found before. */
  lemma DeleteThenFind(b: Book, name: string, other: string)
    requires KeysUnique(b.entries)
    ensures Find(Delete(b, name), name) == None
    ensures other != name ==> Find(Delete(b, name), other) == Find(b, other)
  {
  }
}
