/** The Lucene document `add` builds for a VulnerableSoftware row, the field
    schema `getSearchFields` exposes, and what a delete-by-term removes from a
    collection of documents. */
module Documents {
  import opened Rows

  /** One indexed field: its name and value, whether the value is stored
      (retrievable verbatim) and whether it is tokenized for full-text search. */
  datatype Field = Field(name: FieldName, value: string, stored: bool, tokenized: bool)

  type Document = seq<Field>

  /** The field names of the VulnerableSoftware index (distinct constants). */
  datatype FieldName = UuidField | Cpe22Field | Cpe23Field | VendorField | ProductField | VersionField

  /** The schema `getSearchFields` returns: one name per field of every document. */
  function SearchFields(): (names: seq<FieldName>)
    ensures |names| == 6
    ensures forall i, j :: 0 <= i < j < |names| ==> names[i] != names[j]
  {
    [UuidField, Cpe22Field, Cpe23Field, VendorField, ProductField, VersionField]
  }

  /** A null column is indexed as the empty string, so that every document
      carries every field. */
  function ColumnText(v: Option<string>): string {
    match v
    case None => ""
    case Some(s) => s
  }

  function Names(d: Document): seq<FieldName> {
    seq(|d|, i requires 0 <= i < |d| => d[i].name)
  }

  /** The first field of `d` with the given name. */
  function Lookup(d: Document, name: FieldName): (f: Option<Field>)
    ensures f.Some? ==> f.value in d && f.value.name == name
    ensures f.None? ==> forall i :: 0 <= i < |d| ==> d[i].name != name
  {
    if d == [] then None
    else if d[0].name == name then Some(d[0])
    else Lookup(d[1..], name)
  }

  /** The document `add` builds: six fields, one per name of the schema, all
      stored; the identifiers (uuid, CPE 2.2, CPE 2.3) untokenized, the
      free-text attributes (vendor, product, version) tokenized. */
  function ToDocument(vs: Row): (d: Document)
    ensures Names(d) == SearchFields()
    ensures forall i :: 0 <= i < |d| ==> d[i].stored
    ensures forall i :: 0 <= i < |d| ==>
              (d[i].tokenized <==> d[i].name in {VendorField, ProductField, VersionField})
  {
    var d := [ Field(UuidField, vs.uuid, true, false),
               Field(Cpe22Field, ColumnText(vs.cpe22), true, false),
               Field(Cpe23Field, ColumnText(vs.cpe23), true, false),
               Field(VendorField, ColumnText(vs.vendor), true, true),
               Field(ProductField, ColumnText(vs.product), true, true),
               Field(VersionField, ColumnText(vs.version), true, true) ];
    assert d[0].name == UuidField && d[1].name == Cpe22Field && d[2].name == Cpe23Field;
    assert d[3].name == VendorField && d[4].name == ProductField && d[5].name == VersionField;
    d
  }

  /** Each field of the row is stored under its own name: the uuid verbatim,
      every other column as its text, null as the empty string. */
  lemma DocumentValues(vs: Row)
    ensures Lookup(ToDocument(vs), UuidField) == Some(Field(UuidField, vs.uuid, true, false))
    ensures Lookup(ToDocument(vs), Cpe22Field) == Some(Field(Cpe22Field, ColumnText(vs.cpe22), true, false))
    ensures Lookup(ToDocument(vs), Cpe23Field) == Some(Field(Cpe23Field, ColumnText(vs.cpe23), true, false))
    ensures Lookup(ToDocument(vs), VendorField) == Some(Field(VendorField, ColumnText(vs.vendor), true, true))
    ensures Lookup(ToDocument(vs), ProductField) == Some(Field(ProductField, ColumnText(vs.product), true, true))
    ensures Lookup(ToDocument(vs), VersionField) == Some(Field(VersionField, ColumnText(vs.version), true, true))
  {
    var d := ToDocument(vs);
    forall i, j | 0 <= i < j < |d| ensures d[i].name != d[j].name {
      assert Names(d)[i] == d[i].name && Names(d)[j] == d[j].name;
    }
    LookupEach(d);
    assert d[0] == Field(UuidField, vs.uuid, true, false);
    assert d[1] == Field(Cpe22Field, ColumnText(vs.cpe22), true, false);
    assert d[2] == Field(Cpe23Field, ColumnText(vs.cpe23), true, false);
    assert d[3] == Field(VendorField, ColumnText(vs.vendor), true, true);
    assert d[4] == Field(ProductField, ColumnText(vs.product), true, true);
    assert d[5] == Field(VersionField, ColumnText(vs.version), true, true);
  }

  /** In a document whose field names are distinct, lookup finds every field. */
  lemma LookupEach(d: Document)
    requires forall i, j :: 0 <= i < j < |d| ==> d[i].name != d[j].name
    ensures forall i :: 0 <= i < |d| ==> Lookup(d, d[i].name) == Some(d[i])
  {
    forall i | 0 <= i < |d| ensures Lookup(d, d[i].name) == Some(d[i]) {
      LookupFirst(d, i);
    }
  }

  /** Lookup finds the field at `i` when no earlier field has its name. */
  lemma {:induction false} LookupFirst(d: Document, i: nat)
    requires i < |d|
    requires forall j :: 0 <= j < i ==> d[j].name != d[i].name
    ensures Lookup(d, d[i].name) == Some(d[i])
  {
    if i > 0 {
      LookupFirst(d[1..], i - 1);
    }
  }

  /** `d` holds the exact term `name:value`. Only untokenized fields index their
      whole value as one term; terms of tokenized fields are not modelled. */
  predicate HasTerm(d: Document, name: FieldName, value: string) {
    exists i :: 0 <= i < |d| && !d[i].tokenized && d[i].name == name && d[i].value == value
  }

  /** A document built by `add` holds the uuid term of exactly its own uuid. */
  lemma UuidTermOf(vs: Row, uuid: string)
    ensures HasTerm(ToDocument(vs), UuidField, uuid) <==> uuid == vs.uuid
  {
    var d := ToDocument(vs);
    if uuid == vs.uuid {
      assert d[0].name == UuidField && d[0].value == uuid && !d[0].tokenized;
    }
  }

  /** `deleteDocuments(Term)`: drops every document holding the term. */
  function DeleteByTerm(docs: seq<Document>, name: FieldName, value: string): (r: seq<Document>)
    ensures |r| <= |docs|
    ensures forall d :: d in r <==> d in docs && !HasTerm(d, name, value)
  {
    if docs == [] then []
    else if HasTerm(docs[0], name, value) then DeleteByTerm(docs[1..], name, value)
      else [docs[0]] + DeleteByTerm(docs[1..], name, value)
  }

  /** Delete-by-term removes every copy of the documents holding the term and
      keeps every other document with its multiplicity. */
  lemma {:induction false} DeleteByTermCounts(docs: seq<Document>, name: FieldName, value: string)
    ensures forall d :: multiset(DeleteByTerm(docs, name, value))[d] ==
              if HasTerm(d, name, value) then 0 else multiset(docs)[d]
  {
    if docs != [] {
      DeleteByTermCounts(docs[1..], name, value);
      assert docs == [docs[0]] + docs[1..];
    }
  }

  /** Deleting a term no document holds changes nothing, order included. */
  lemma {:induction false} DeleteAbsentIsNoOp(docs: seq<Document>, name: FieldName, value: string)
    requires forall i :: 0 <= i < |docs| ==> !HasTerm(docs[i], name, value)
    ensures DeleteByTerm(docs, name, value) == docs
  {
    if docs != [] {
      DeleteAbsentIsNoOp(docs[1..], name, value);
    }
  }

  lemma DeleteIdempotent(docs: seq<Document>, name: FieldName, value: string)
    ensures DeleteByTerm(DeleteByTerm(docs, name, value), name, value) == DeleteByTerm(docs, name, value)
  {
    var once := DeleteByTerm(docs, name, value);
    forall i | 0 <= i < |once| ensures !HasTerm(once[i], name, value) {
      assert once[i] in once;
    }
    DeleteAbsentIsNoOp(once, name, value);
  }

  lemma {:induction false} DeleteConcat(a: seq<Document>, b: seq<Document>, name: FieldName, value: string)
    ensures DeleteByTerm(a + b, name, value) == DeleteByTerm(a, name, value) + DeleteByTerm(b, name, value)
  {
    if a == [] {
      assert a + b == b;
    } else {
      assert (a + b)[0] == a[0] && (a + b)[1..] == a[1..] + b;
      DeleteConcat(a[1..], b, name, value);
    }
  }

  /** Removing a uuid right after adding it leaves what removing it before
      the add would have left. */
  lemma RemoveUndoesAdd(docs: seq<Document>, vs: Row)
    ensures DeleteByTerm(docs + [ToDocument(vs)], UuidField, vs.uuid) == DeleteByTerm(docs, UuidField, vs.uuid)
  {
    DeleteConcat(docs, [ToDocument(vs)], UuidField, vs.uuid);
    UuidTermOf(vs, vs.uuid);
    assert DeleteByTerm([ToDocument(vs)], UuidField, vs.uuid) == [];
  }

  /** Number of documents holding the term `name:value`. */
  function CountTerm(docs: seq<Document>, name: FieldName, value: string): (n: nat)
    ensures n <= |docs|
    ensures n == 0 <==> forall i :: 0 <= i < |docs| ==> !HasTerm(docs[i], name, value)
  {
    if docs == [] then 0
    else (if HasTerm(docs[0], name, value) then 1 else 0) + CountTerm(docs[1..], name, value)
  }

  lemma {:induction false} CountTermConcat(a: seq<Document>, b: seq<Document>, name: FieldName, value: string)
    ensures CountTerm(a + b, name, value) == CountTerm(a, name, value) + CountTerm(b, name, value)
  {
    if a == [] {
      assert a + b == b;
    } else {
      assert (a + b)[0] == a[0] && (a + b)[1..] == a[1..] + b;
      CountTermConcat(a[1..], b, name, value);
    }
  }

  /** `add` appends: each add of a row contributes one more document with its
      uuid, whatever documents with that uuid the index already holds. */
  lemma AddKeepsExisting(docs: seq<Document>, vs: Row)
    ensures CountTerm(docs + [ToDocument(vs)], UuidField, vs.uuid) == CountTerm(docs, UuidField, vs.uuid) + 1
  {
    CountTermConcat(docs, [ToDocument(vs)], UuidField, vs.uuid);
    UuidTermOf(vs, vs.uuid);
  }
}
