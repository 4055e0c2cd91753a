/** The merge of the selected config documents into one case-insensitive table from key to
    value array: later documents override earlier ones, except for the keys of the `append`
    table, whose first slot accumulates. This module states the merge on values; the
    in-place version over arrays is `Config.ConfigTable`. */
module Merge {
  import opened Wrappers
  import opened Text
  import Xml

  /** The `append` table: key (looked up case-sensitively) to the separator placed between
      accumulated values. It is fixed at its initial contents, which the modelled code never
      changes. */
  const Append: map<string, string> := map["ScriptingDefineSymbols" := ";"]

  /** The config table: `entries` maps each key, folded to lower case (the table compares keys
      ignoring case), to its value array; `keys` lists the folded keys in insertion order (the
      order `Keys` enumerates). */
  datatype Table = Table(keys: seq<string>, entries: map<string, seq<string>>)

  /** Keys are listed once each, `keys` and `entries` describe the same key set, and every
      value array has a first slot. */
  predicate Valid(t: Table) {
    && (forall i, j :: 0 <= i < j < |t.keys| ==> t.keys[i] != t.keys[j])
    && t.entries.Keys == set k | k in t.keys
    && (forall k :: k in t.entries ==> |t.entries[k]| >= 1)
  }

  const Empty: Table := Table([], map[])

  /** One top-level element of a config document: its local name and its value array. */
  datatype Entry = Entry(name: string, values: seq<string>)

  /** The entries a document contributes: one per child element of the document element, in
      document order. */
  function DocumentEntries(root: Xml.Node): (es: seq<Entry>)
    ensures |es| == |Xml.ChildElements(root)|
    ensures forall i :: 0 <= i < |es| ==>
      es[i] == Entry(Xml.ChildElements(root)[i].name, Xml.EntryValues(Xml.ChildElements(root)[i]))
    ensures forall e :: e in es ==> |e.values| >= 1
  {
    var kids := Xml.ChildElements(root);
    seq(|kids|, i requires 0 <= i < |kids| => Entry(kids[i].name, Xml.EntryValues(kids[i])))
  }

  /** Slot 0 of an append key after a merge: the trimmed old text, the separator unless the
      old text already ends with it, then the new first value. */
  function Joined(old0: string, sep: string, value: string): (r: string)
    ensures exists mid :: r == old0 + mid + value && EndsWith(old0 + mid, sep)
                       && (mid == "" || mid == sep) && (mid == "" <==> EndsWith(old0, sep))
  {
    var mid := if EndsWith(old0, sep) then "" else sep;
    assert EndsWith(old0 + mid, sep) by {
      if mid == sep {
        assert (old0 + sep)[|old0 + sep| - |sep|..] == sep;
      } else {
        assert old0 + mid == old0;
      }
    }
    assert old0 + mid + value == if EndsWith(old0, sep) then old0 + value else old0 + sep + value;
    if EndsWith(old0, sep) then old0 + value else old0 + sep + value
  }

  /** Whether merging an entry named `name` accumulates onto the existing first slot: the
      name is an append key as written, the folded key is present, and its first slot is not
      blank once trailing white space is removed. */
  predicate Accumulates(t: Table, name: string)
    requires Valid(t)
  {
    name in Append && ToLower(name) in t.entries && TrimEnd(t.entries[ToLower(name)][0]) != ""
  }

  /** One iteration of the merge loop. */
  function MergeEntry(t: Table, e: Entry): (r: Table)
    requires Valid(t) && |e.values| >= 1
    ensures Valid(r)
    ensures r.entries.Keys == t.entries.Keys + {ToLower(e.name)}
    ensures forall k :: k in t.entries && k != ToLower(e.name) ==> r.entries[k] == t.entries[k]
    ensures !Accumulates(t, e.name) ==> r.entries[ToLower(e.name)] == e.values
    ensures Accumulates(t, e.name) ==>
      var prior := t.entries[ToLower(e.name)];
      && |r.entries[ToLower(e.name)]| == |prior|
      && r.entries[ToLower(e.name)][1..] == prior[1..]
      && r.entries[ToLower(e.name)][0] == Joined(TrimEnd(prior[0]), Append[e.name], e.values[0])
    ensures |t.keys| <= |r.keys| && r.keys[..|t.keys|] == t.keys
  {
    var k := ToLower(e.name);
    if Accumulates(t, e.name) then
      var prior := t.entries[k];
      var updated := prior[0 := Joined(TrimEnd(prior[0]), Append[e.name], e.values[0])];
      assert |updated| == |prior| && updated[1..] == prior[1..];
      ValidPut(t, k, updated);
      t.(entries := t.entries[k := updated])
    else if k in t.entries then
      ValidPut(t, k, e.values);
      t.(entries := t.entries[k := e.values])
    else
      ValidPut(t, k, e.values);
      Table(t.keys + [k], t.entries[k := e.values])
  }

  /** Binding a key to a non-empty array keeps a table valid: an existing key keeps its place
      in the key order, a new one joins its end. */
  lemma ValidPut(t: Table, k: string, v: seq<string>)
    requires Valid(t) && |v| >= 1
    ensures k in t.entries ==> Valid(t.(entries := t.entries[k := v]))
    ensures k !in t.entries ==> Valid(Table(t.keys + [k], t.entries[k := v]))
  {
    if k !in t.entries {
      assert k !in t.keys;
    }
  }

  /** The merge loop over a sequence of entries. */
  function MergeEntries(t: Table, es: seq<Entry>): (r: Table)
    requires Valid(t) && forall e :: e in es ==> |e.values| >= 1
    ensures Valid(r)
    ensures t.entries.Keys <= r.entries.Keys
    ensures forall e :: e in es ==> ToLower(e.name) in r.entries
    decreases |es|
  {
    if es == [] then t else MergeEntries(MergeEntry(t, es[0]), es[1..])
  }

  /** Merges the documents in order. */
  function MergeDocuments(t: Table, roots: seq<Xml.Node>): (r: Table)
    requires Valid(t)
    ensures Valid(r)
    ensures t.entries.Keys <= r.entries.Keys
    ensures forall root, e :: root in roots && e in DocumentEntries(root) ==> ToLower(e.name) in r.entries
    decreases |roots|
  {
    if roots == [] then t
    else
      var t1 := MergeEntries(t, DocumentEntries(roots[0]));
      var r := MergeDocuments(t1, roots[1..]);
      assert forall root :: root in roots ==> root == roots[0] || root in roots[1..];
      r
  }

  /** The entries of a sequence of documents, one document after another. */
  function AllEntries(roots: seq<Xml.Node>): (es: seq<Entry>)
    ensures forall e :: e in es ==> |e.values| >= 1
    decreases |roots|
  {
    if roots == [] then [] else DocumentEntries(roots[0]) + AllEntries(roots[1..])
  }

  /** Merging documents is merging all their entries as one sequence. */
  lemma {:induction false} MergeDocumentsFlat(t: Table, roots: seq<Xml.Node>)
    requires Valid(t)
    ensures MergeDocuments(t, roots) == MergeEntries(t, AllEntries(roots))
    decreases |roots|
  {
    if roots != [] {
      var first := DocumentEntries(roots[0]);
      MergeDocumentsFlat(MergeEntries(t, first), roots[1..]);
      MergeEntriesSplit(t, first, AllEntries(roots[1..]));
    }
  }

  /** Merging a sequence in two parts is merging the first part, then the second. */
  lemma {:induction false} MergeEntriesSplit(t: Table, a: seq<Entry>, b: seq<Entry>)
    requires Valid(t) && forall e :: e in a + b ==> |e.values| >= 1
    ensures MergeEntries(t, a + b) == MergeEntries(MergeEntries(t, a), b)
    decreases |a|
  {
    if a == [] {
      assert a + b == b;
    } else {
      assert (a + b)[1..] == a[1..] + b;
      MergeEntriesSplit(MergeEntry(t, a[0]), a[1..], b);
    }
  }

  /** Merging one more entry extends the merge of a prefix. */
  lemma MergeEntriesSnoc(t: Table, es: seq<Entry>, i: nat)
    requires Valid(t) && (forall e :: e in es ==> |e.values| >= 1) && i < |es|
    ensures MergeEntries(t, es[..i + 1]) == MergeEntry(MergeEntries(t, es[..i]), es[i])
  {
    assert es[..i + 1] == es[..i] + [es[i]];
    assert es[i] in es;
    MergeEntriesSplit(t, es[..i], [es[i]]);
    MergeSingle(MergeEntries(t, es[..i]), es[i]);
  }

  /** Merging documents in two groups is merging the first group, then the second. */
  lemma {:induction false} MergeDocumentsSplit(t: Table, a: seq<Xml.Node>, b: seq<Xml.Node>)
    requires Valid(t)
    ensures MergeDocuments(t, a + b) == MergeDocuments(MergeDocuments(t, a), b)
    decreases |a|
  {
    if a == [] {
      assert a + b == b;
    } else {
      assert (a + b)[1..] == a[1..] + b;
      MergeDocumentsSplit(MergeEntries(t, DocumentEntries(a[0])), a[1..], b);
    }
  }

  /** Merging one more document extends the merge of a prefix. */
  lemma MergeDocumentsSnoc(t: Table, roots: seq<Xml.Node>, i: nat)
    requires Valid(t) && i < |roots|
    ensures MergeDocuments(t, roots[..i + 1]) == MergeEntries(MergeDocuments(t, roots[..i]), DocumentEntries(roots[i]))
  {
    assert roots[..i + 1] == roots[..i] + [roots[i]];
    MergeDocumentsSplit(t, roots[..i], [roots[i]]);
    assert [roots[i]][1..] == [];
  }

  /** The folded names of a non-empty sequence of entries: the first one and the rest. */
  lemma NamesCons(es: seq<Entry>)
    requires es != []
    ensures (set e | e in es :: ToLower(e.name))
         == {ToLower(es[0].name)} + (set e | e in es[1..] :: ToLower(e.name))
  {
    assert forall e :: e in es <==> e == es[0] || e in es[1..];
  }

  /** The key set grows by exactly the entries' folded names. */
  lemma {:induction false} MergeEntriesKeys(t: Table, es: seq<Entry>)
    requires Valid(t) && forall e :: e in es ==> |e.values| >= 1
    ensures MergeEntries(t, es).entries.Keys == t.entries.Keys + (set e | e in es :: ToLower(e.name))
    decreases |es|
  {
    if es == [] {
      assert (set e | e in es :: ToLower(e.name)) == {};
    } else {
      NamesCons(es);
      MergeEntriesKeys(MergeEntry(t, es[0]), es[1..]);
    }
  }

  /** Keys that no entry names keep their value arrays. */
  lemma {:induction false} MergeEntriesUntouched(t: Table, es: seq<Entry>, k: string)
    requires Valid(t) && forall e :: e in es ==> |e.values| >= 1
    requires k in t.entries && forall e :: e in es ==> ToLower(e.name) != k
    ensures MergeEntries(t, es).entries[k] == t.entries[k]
    decreases |es|
  {
    if es != [] {
      assert es[0] in es;
      MergeEntriesUntouched(MergeEntry(t, es[0]), es[1..], k);
    }
  }

  /** The entry merged last sets a non-append key to its own value array. */
  lemma MergeLast(t: Table, front: seq<Entry>, e: Entry)
    requires Valid(t) && (forall x :: x in front ==> |x.values| >= 1) && |e.values| >= 1
    requires e.name !in Append
    ensures MergeEntries(t, front + [e]).entries[ToLower(e.name)] == e.values
  {
    assert forall x :: x in front + [e] ==> x in front || x == e;
    MergeEntriesSplit(t, front, [e]);
    MergeSingle(MergeEntries(t, front), e);
  }

  /** Merging a one-entry sequence is one merge step. */
  lemma MergeSingle(t: Table, e: Entry)
    requires Valid(t) && |e.values| >= 1
    ensures MergeEntries(t, [e]) == MergeEntry(t, e)
  {
    assert [e][1..] == [];
  }

  lemma LastWinsSplit(t: Table, front: seq<Entry>, e: Entry, back: seq<Entry>)
    requires Valid(t) && forall x :: x in front + [e] + back ==> |x.values| >= 1
    requires e.name !in Append
    requires forall x :: x in back ==> ToLower(x.name) != ToLower(e.name)
    ensures MergeEntries(t, front + [e] + back).entries[ToLower(e.name)] == e.values
  {
    assert forall x :: x in front + [e] ==> x in front + [e] + back;
    MergeEntriesSplit(t, front + [e], back);
    MergeLast(t, front, e);
    MergeEntriesUntouched(MergeEntries(t, front + [e]), back, ToLower(e.name));
  }

  /** Override: the value array of a non-append entry survives when no later entry folds to
      the same key. */
  lemma LastWins(t: Table, es: seq<Entry>, i: nat)
    requires Valid(t) && forall e :: e in es ==> |e.values| >= 1
    requires i < |es| && es[i].name !in Append
    requires forall j :: i < j < |es| ==> ToLower(es[j].name) != ToLower(es[i].name)
    ensures MergeEntries(t, es).entries[ToLower(es[i].name)] == es[i].values
  {
    var front, back := es[..i], es[i + 1..];
    assert es == front + [es[i]] + back;
    assert forall x :: x in back ==> ToLower(x.name) != ToLower(es[i].name) by {
      forall x | x in back ensures ToLower(x.name) != ToLower(es[i].name) {
        var j :| 0 <= j < |back| && back[j] == x;
        assert es[i + 1 + j] == x;
      }
    }
    LastWinsSplit(t, front, es[i], back);
  }

  /** One more value of an append key onto a table holding only that key, whose first slot is
      non-blank at its end and does not end with the separator. */
  lemma AccumulateOne(name: string, cur: string, v: string)
    requires name in Append
    requires cur != "" && !IsWhiteSpace(cur[|cur| - 1]) && !EndsWith(cur, Append[name])
    ensures var k := ToLower(name);
      MergeEntry(Table([k], map[k := [cur]]), Entry(name, [v]))
        == Table([k], map[k := [cur + Append[name] + v]])
  {
    var k := ToLower(name);
    var t := Table([k], map[k := [cur]]);
    assert TrimEnd(cur) == cur;
    assert Accumulates(t, name);
    assert [cur][0 := cur + Append[name] + v] == [cur + Append[name] + v];
  }

  /** Three entries merged in turn, each setting an append key to one value, accumulate the
      values with the key's separator: for ScriptingDefineSymbols, "a", "b", "c" give "a;b;c". */
  lemma AppendJoins(name: string, a: string, b: string, c: string)
    requires name in Append
    requires a != "" && !IsWhiteSpace(a[|a| - 1]) && !EndsWith(a, Append[name])
    requires b != "" && !IsWhiteSpace(b[|b| - 1]) && !EndsWith(a + Append[name] + b, Append[name])
    ensures MergeEntries(Empty, [Entry(name, [a]), Entry(name, [b]), Entry(name, [c])]).entries
         == map[ToLower(name) := [a + Append[name] + b + Append[name] + c]]
  {
    var sep := Append[name];
    var e0, e1, e2 := Entry(name, [a]), Entry(name, [b]), Entry(name, [c]);
    MergeThree(Empty, e0, e1, e2);
    MergeIntoEmpty(e0);
    AccumulateOne(name, a, b);
    var ab := a + sep + b;
    assert ab[|ab| - 1] == b[|b| - 1];
    AccumulateOne(name, ab, c);
  }

  /** The first entry merged into the empty table becomes its only key. */
  lemma MergeIntoEmpty(e: Entry)
    requires |e.values| >= 1
    ensures MergeEntry(Empty, e) == Table([ToLower(e.name)], map[ToLower(e.name) := e.values])
  {
    assert !Accumulates(Empty, e.name);
  }

  /** Merging three entries is three merge steps. */
  lemma MergeThree(t: Table, e0: Entry, e1: Entry, e2: Entry)
    requires Valid(t) && |e0.values| >= 1 && |e1.values| >= 1 && |e2.values| >= 1
    ensures MergeEntries(t, [e0, e1, e2]) == MergeEntry(MergeEntry(MergeEntry(t, e0), e1), e2)
  {
    assert [e0, e1, e2][1..] == [e1, e2] && [e1, e2][1..] == [e2];
    MergeSingle(MergeEntry(MergeEntry(t, e0), e1), e2);
  }

  /** The last entry of `es` whose name folds to `key`. */
  function LastNaming(es: seq<Entry>, key: string): (r: Option<Entry>)
    ensures r.Some? ==> r.value in es && ToLower(r.value.name) == key
    ensures r.None? <==> forall e :: e in es ==> ToLower(e.name) != key
    decreases |es|
  {
    if es == [] then None
    else
      assert forall e :: e in es <==> e == es[0] || e in es[1..];
      var rest := LastNaming(es[1..], key);
      if rest.Some? then rest
      else if ToLower(es[0].name) == key then Some(es[0])
      else None
  }

  /** Whether a document has a top-level element whose name folds to `key`. */
  predicate Defines(root: Xml.Node, key: string) {
    LastNaming(DocumentEntries(root), key).Some?
  }

  /** The last of `roots` that defines `key`. */
  function LastDefining(roots: seq<Xml.Node>, key: string): (r: Option<Xml.Node>)
    ensures r.Some? ==> r.value in roots && Defines(r.value, key)
    ensures r.None? <==> forall root :: root in roots ==> !Defines(root, key)
    decreases |roots|
  {
    if roots == [] then None
    else
      assert forall root :: root in roots <==> root == roots[0] || root in roots[1..];
      var rest := LastDefining(roots[1..], key);
      if rest.Some? then rest
      else if Defines(roots[0], key) then Some(roots[0])
      else None
  }

  /** Override within one entry sequence: a key ends with the value array of the last entry
      naming it, when that entry's name is not an append key. */
  lemma {:induction false} LastNamingWins(t: Table, es: seq<Entry>, key: string)
    requires Valid(t) && forall e :: e in es ==> |e.values| >= 1
    requires LastNaming(es, key).Some? && LastNaming(es, key).value.name !in Append
    ensures MergeEntries(t, es).entries[key] == LastNaming(es, key).value.values
    decreases |es|
  {
    assert es[0] in es;
    if LastNaming(es[1..], key).Some? {
      LastNamingWins(MergeEntry(t, es[0]), es[1..], key);
    } else {
      MergeEntriesUntouched(MergeEntry(t, es[0]), es[1..], key);
    }
  }

  /** Keys that no document defines keep their value arrays. */
  lemma {:induction false} MergeDocumentsUntouched(t: Table, roots: seq<Xml.Node>, key: string)
    requires Valid(t) && key in t.entries
    requires forall root :: root in roots ==> !Defines(root, key)
    ensures MergeDocuments(t, roots).entries[key] == t.entries[key]
    decreases |roots|
  {
    if roots != [] {
      assert roots[0] in roots;
      MergeEntriesUntouched(t, DocumentEntries(roots[0]), key);
      MergeDocumentsUntouched(MergeEntries(t, DocumentEntries(roots[0])), roots[1..], key);
    }
  }

  /** Override across documents: a key ends with the value array of the last element naming
      it in the last document defining it, when that element's name is not an append key. */
  lemma {:induction false} DocumentsLastWins(t: Table, roots: seq<Xml.Node>, key: string)
    requires Valid(t) && LastDefining(roots, key).Some?
    requires LastNaming(DocumentEntries(LastDefining(roots, key).value), key).value.name !in Append
    ensures MergeDocuments(t, roots).entries[key]
         == LastNaming(DocumentEntries(LastDefining(roots, key).value), key).value.values
    decreases |roots|
  {
    var t1 := MergeEntries(t, DocumentEntries(roots[0]));
    if LastDefining(roots[1..], key).Some? {
      DocumentsLastWins(t1, roots[1..], key);
    } else {
      LastNamingWins(t, DocumentEntries(roots[0]), key);
      MergeDocumentsUntouched(t1, roots[1..], key);
    }
  }

  /** A config document holding one element `name` whose text is `v`. */
  function OneValue(name: string, v: string): Xml.Node {
    Xml.Element("config", [Xml.Element(name, [Xml.Text(v)])])
  }

  /** Such a document contributes one entry with the single value `v`. */
  lemma OneValueEntries(name: string, v: string)
    ensures DocumentEntries(OneValue(name, v)) == [Entry(name, [v])]
  {
    var text := Xml.Text(v);
    var kid := Xml.Element(name, [text]);
    assert Xml.ChildElements(OneValue(name, v)) == [kid] by {
      assert [kid][1..] == [];
      assert Xml.Elements([kid]) == [kid] + Xml.Elements([]);
    }
    assert Xml.ChildElements(kid) == [] by {
      assert [text][1..] == [];
    }
    assert Xml.InnerText(kid) == v by {
      var parts := seq(1, i requires 0 <= i < 1 => Xml.InnerText([text][i]));
      assert parts == [v];
      assert Xml.Concat([v]) == v + Xml.Concat([]);
    }
  }

  /** Documents of one entry each contribute those entries, in order. */
  lemma {:induction false} SingleEntries(rs: seq<Xml.Node>, es: seq<Entry>)
    requires |rs| == |es| && forall i :: 0 <= i < |rs| ==> DocumentEntries(rs[i]) == [es[i]]
    ensures AllEntries(rs) == es
    decreases |rs|
  {
    if rs != [] {
      SingleEntries(rs[1..], es[1..]);
      assert es == [es[0]] + es[1..];
    }
  }

  /** The entries of three one-value documents. */
  lemma ThreeDocumentEntries(name: string, a: string, b: string, c: string)
    ensures AllEntries([OneValue(name, a), OneValue(name, b), OneValue(name, c)])
         == [Entry(name, [a]), Entry(name, [b]), Entry(name, [c])]
  {
    OneValueEntries(name, a);
    OneValueEntries(name, b);
    OneValueEntries(name, c);
    SingleEntries([OneValue(name, a), OneValue(name, b), OneValue(name, c)],
                  [Entry(name, [a]), Entry(name, [b]), Entry(name, [c])]);
  }

  /** Three documents, each setting an append key to one value, accumulate the values with
      the key's separator, in document order. */
  lemma AppendAcrossDocuments(name: string, a: string, b: string, c: string)
    requires name in Append
    requires a != "" && !IsWhiteSpace(a[|a| - 1]) && !EndsWith(a, Append[name])
    requires b != "" && !IsWhiteSpace(b[|b| - 1]) && !EndsWith(a + Append[name] + b, Append[name])
    ensures MergeDocuments(Empty, [OneValue(name, a), OneValue(name, b), OneValue(name, c)]).entries
         == map[ToLower(name) := [a + Append[name] + b + Append[name] + c]]
  {
    ThreeDocumentEntries(name, a, b, c);
    MergeDocumentsFlat(Empty, [OneValue(name, a), OneValue(name, b), OneValue(name, c)]);
    AppendJoins(name, a, b, c);
  }
}
