/** Language matching and the key-count parity check between the `en` and
    `ua` documents of one collection (index.js:56-81). */
module Matcher {
  import opened Wrappers
  import opened Documents

  /** The reasons the exporter stops with `process.exit(1)`. */
  datatype Error =
    | MissingLang(collection: string, doc: Document)      // a document without a truthy `lang`
    | NoLangDoc(collection: string, docs: seq<Document>)  // no document in the requested language
    | CountMismatch(first: Option<Document>)              // the two languages differ in key count

  /** A collection as the store lists it: its name and all its documents. */
  datatype Collection = Collection(name: string, docs: seq<Document>)

  /** `!doc.lang` is false (index.js:58): only a present, truthy `lang` passes. */
  predicate HasLang(d: Document) {
    var l := Get(d, "lang");
    l.Some? && Truthy(l.value)
  }

  /** `doc.lang === lang` (index.js:62). */
  predicate IsLang(d: Document, lang: string) {
    Get(d, "lang") == Some(Str(lang))
  }

  /** The position of the last document in `lang`. */
  predicate IsLastMatch(docs: seq<Document>, lang: string, i: int) {
    && 0 <= i < |docs|
    && IsLang(docs[i], lang)
    && forall j :: i < j < |docs| ==> !IsLang(docs[j], lang)
  }

  /** The `filter` pass of getTargetLangDoc: the documents in `lang`, in
      order, unless it meets a document without a truthy `lang` first;
      that document is the one reported before the exit. */
  function FilterLang(docs: seq<Document>, lang: string): (r: Result<seq<Document>, Document>)
    ensures r.Success? ==> forall m :: 0 <= m < |r.value| ==> IsLang(r.value[m], lang)
  {
    if docs == [] then Success([])
    else if !HasLang(docs[0]) then Failure(docs[0])
    else
      var rest :- FilterLang(docs[1..], lang);
      Success(if IsLang(docs[0], lang) then [docs[0]] + rest else rest)
  }

  /** The filter stops exactly when some document lacks a truthy `lang`,
      and reports the first such document. */
  lemma {:induction false} FilterLangFailure(docs: seq<Document>, lang: string)
    ensures FilterLang(docs, lang).Failure? <==> exists i :: 0 <= i < |docs| && !HasLang(docs[i])
    ensures FilterLang(docs, lang).Failure? ==>
      exists i :: 0 <= i < |docs| && docs[i] == FilterLang(docs, lang).error && !HasLang(docs[i]) &&
                  forall j :: 0 <= j < i ==> HasLang(docs[j])
  {
    if docs != [] && HasLang(docs[0]) {
      var tail := docs[1..];
      FilterLangFailure(tail, lang);
      assert forall i :: 0 <= i < |tail| ==> tail[i] == docs[i + 1];
      if FilterLang(tail, lang).Failure? {
        var i :| 0 <= i < |tail| && tail[i] == FilterLang(tail, lang).error && !HasLang(tail[i]) &&
                 forall j :: 0 <= j < i ==> HasLang(tail[j]);
        forall j | 0 <= j < i + 1 ensures HasLang(docs[j]) {
          if j > 0 { assert docs[j] == tail[j - 1]; }
        }
      }
    }
  }

  /** When the filter completes, its result is empty exactly when no document
      is in `lang`, and otherwise ends with the last document in `lang`. */
  lemma {:induction false} FilterLangSuccess(docs: seq<Document>, lang: string)
    ensures FilterLang(docs, lang).Success? ==>
      var ms := FilterLang(docs, lang).value;
      (ms == [] <==> forall i :: 0 <= i < |docs| ==> !IsLang(docs[i], lang)) &&
      (ms != [] ==> exists i :: IsLastMatch(docs, lang, i) && docs[i] == ms[|ms| - 1])
  {
    if docs != [] {
      var tail := docs[1..];
      FilterLangSuccess(tail, lang);
      assert forall i :: 0 <= i < |tail| ==> tail[i] == docs[i + 1];
      if HasLang(docs[0]) && FilterLang(tail, lang).Success? {
        var rest := FilterLang(tail, lang).value;
        if rest != [] {
          var i :| IsLastMatch(tail, lang, i) && tail[i] == rest[|rest| - 1];
          assert IsLastMatch(docs, lang, i + 1);
        } else if IsLang(docs[0], lang) {
          assert IsLastMatch(docs, lang, 0);
        }
      }
    }
  }

  /** getTargetLangDoc (index.js:56-72): the last document in `lang`, without
      its `lang` property; fails on any document without a truthy `lang`,
      even when another document matches, and when none is in `lang`. */
  function GetTargetLangDoc(collection: string, docs: seq<Document>, lang: string): (r: Result<Document, Error>)
    ensures (r.Failure? && r.error.MissingLang?) <==> exists i :: 0 <= i < |docs| && !HasLang(docs[i])
    ensures r.Failure? && r.error.MissingLang? ==>
      r.error.collection == collection &&
      exists i :: 0 <= i < |docs| && docs[i] == r.error.doc && !HasLang(docs[i]) &&
        forall j :: 0 <= j < i ==> HasLang(docs[j])
    ensures (r.Failure? && r.error.NoLangDoc?) <==>
      (forall i :: 0 <= i < |docs| ==> HasLang(docs[i])) &&
      (forall i :: 0 <= i < |docs| ==> !IsLang(docs[i], lang))
    ensures r.Failure? && r.error.NoLangDoc? ==> r.error == NoLangDoc(collection, docs)
    ensures r.Failure? ==> !r.error.CountMismatch?
    ensures r.Success? ==>
      exists i :: IsLastMatch(docs, lang, i) &&
        r.value == Without(docs[i], "lang") && |r.value| + 1 == |docs[i]|
    ensures r.Success? ==> !HasKey(r.value, "lang")
  {
    FilterLangFailure(docs, lang);
    FilterLangSuccess(docs, lang);
    match FilterLang(docs, lang)
    case Failure(d) => Failure(MissingLang(collection, d))
    case Success(matches) =>
      if matches == [] then Failure(NoLangDoc(collection, docs))
      else Success(Without(matches[|matches| - 1], "lang"))
  }

  /** When every document has a `lang`, the matcher returns the last document
      in `lang`, whichever it is. */
  lemma GetLastMatch(collection: string, docs: seq<Document>, lang: string, i: int)
    requires forall j :: 0 <= j < |docs| ==> HasLang(docs[j])
    requires IsLastMatch(docs, lang, i)
    ensures GetTargetLangDoc(collection, docs, lang) == Success(Without(docs[i], "lang"))
  {
    var r := GetTargetLangDoc(collection, docs, lang);
    assert r.Success?;
    var j :| IsLastMatch(docs, lang, j) && r.value == Without(docs[j], "lang");
    assert j == i;
  }

  /** `Object.keys(doc ?? {}).length`. */
  function KeyCount(d: Option<Document>): nat {
    if d.Some? then |d.value| else 0
  }

  /** checkThatDiffLangDocumentsHaveSamePropsCount (index.js:74-81): passes
      exactly when the two documents have as many keys, whatever the keys;
      a missing document counts as empty; the first document is reported. */
  function CheckSameCount(d1: Option<Document>, d2: Option<Document>): (r: Result<(), Error>)
    ensures r.Success? <==> KeyCount(d1) == KeyCount(d2)
    ensures r.Failure? ==> r.error == CountMismatch(d1)
  {
    if KeyCount(d1) == KeyCount(d2) then Success(()) else Failure(CountMismatch(d1))
  }

  /** The set of keys of a document. */
  function KeySet(fs: seq<Field>): (ks: set<string>)
    ensures forall k :: k in ks <==> HasKey(fs, k)
  {
    if fs == [] then {}
    else
      var ks := {fs[0].key} + KeySet(fs[1..]);
      assert forall k :: HasKey(fs, k) ==> k in ks by {
        forall k | HasKey(fs, k) ensures k in ks {
          var i :| 0 <= i < |fs| && fs[i].key == k;
          if i > 0 { assert fs[1..][i - 1].key == k; }
        }
      }
      assert forall k :: HasKey(fs[1..], k) ==> HasKey(fs, k) by {
        forall k | HasKey(fs[1..], k) ensures HasKey(fs, k) {
          var i :| 0 <= i < |fs[1..]| && fs[1..][i].key == k;
          assert fs[i + 1].key == k;
        }
      }
      ks
  }

  /** A document has as many keys as it has distinct key names. */
  lemma {:induction false} KeySetSize(d: Document)
    ensures |KeySet(d)| == |d|
  {
    if d != [] {
      var tail: Document := d[1..];
      KeySetSize(tail);
      assert d[0].key !in KeySet(tail);
    }
  }

  /** The check never rejects a pair with the same key names. */
  lemma SameKeysPass(d1: Document, d2: Document)
    requires forall k :: HasKey(d1, k) <==> HasKey(d2, k)
    ensures CheckSameCount(Some(d1), Some(d2)).Success?
  {
    KeySetSize(d1);
    KeySetSize(d2);
    assert KeySet(d1) == KeySet(d2);
  }

  /** ... but it compares counts only: two documents with no key in common pass. */
  lemma CountOnlyParity()
    ensures
      var en: Document := [Field("title", Str("Hi"))];
      var uk: Document := [Field("caption", Str("Hi"))];
      !HasKey(uk, "title") && CheckSameCount(Some(en), Some(uk)).Success?
  {
    var uk: Document := [Field("caption", Str("Hi"))];
    assert !HasKey(uk, "title") by {
      assert forall i :: 0 <= i < |uk| ==> uk[i].key == "caption";
    }
  }

  /** The per-collection step of every converter (index.js:104-107 and
      equivalents): the `en` document, the `ua` document, then the parity
      check, in that order. */
  function PairDocs(c: Collection): (r: Result<(Document, Document), Error>)
    ensures r.Success? ==> |r.value.0| == |r.value.1|
    ensures r.Success? ==> !HasKey(r.value.0, "lang") && !HasKey(r.value.1, "lang")
    ensures r.Success? ==>
      (exists i :: IsLastMatch(c.docs, "en", i) && r.value.0 == Without(c.docs[i], "lang")) &&
      (exists i :: IsLastMatch(c.docs, "ua", i) && r.value.1 == Without(c.docs[i], "lang"))
    ensures (exists i :: 0 <= i < |c.docs| && !HasLang(c.docs[i])) ==> r.Failure? && r.error.MissingLang?
  {
    var en :- GetTargetLangDoc(c.name, c.docs, "en");
    var uk :- GetTargetLangDoc(c.name, c.docs, "ua");
    var _ :- CheckSameCount(Some(en), Some(uk));
    Success((en, uk))
  }

  /** Every document has a `lang` and the last document of each language is
      found, with `lang` taken off: one key fewer. */
  lemma TargetFound(collection: string, docs: seq<Document>, lang: string, i: int)
    requires lang != ""
    requires forall j :: 0 <= j < |docs| ==> HasLang(docs[j])
    requires IsLastMatch(docs, lang, i)
    ensures GetTargetLangDoc(collection, docs, lang) == Success(Without(docs[i], "lang"))
    ensures |Without(docs[i], "lang")| + 1 == |docs[i]|
  {
    GetLastMatch(collection, docs, lang, i);
  }

  /** The step passes exactly when every document has a `lang`, both
      languages are present and their last documents have as many keys. */
  lemma PairDocsSucceeds(c: Collection)
    ensures PairDocs(c).Success? <==>
      (forall i :: 0 <= i < |c.docs| ==> HasLang(c.docs[i])) &&
      exists e, u :: IsLastMatch(c.docs, "en", e) && IsLastMatch(c.docs, "ua", u) && |c.docs[e]| == |c.docs[u]|
  {
    if PairDocs(c).Success? {
      var en := GetTargetLangDoc(c.name, c.docs, "en");
      var uk := GetTargetLangDoc(c.name, c.docs, "ua");
      var e :| IsLastMatch(c.docs, "en", e) && en.value == Without(c.docs[e], "lang") && |en.value| + 1 == |c.docs[e]|;
      var u :| IsLastMatch(c.docs, "ua", u) && uk.value == Without(c.docs[u], "lang") && |uk.value| + 1 == |c.docs[u]|;
      assert |c.docs[e]| == |c.docs[u]|;
    } else if (forall i :: 0 <= i < |c.docs| ==> HasLang(c.docs[i])) {
      forall e, u | IsLastMatch(c.docs, "en", e) && IsLastMatch(c.docs, "ua", u)
        ensures |c.docs[e]| != |c.docs[u]|
      {
        TargetFound(c.name, c.docs, "en", e);
        TargetFound(c.name, c.docs, "ua", u);
      }
    }
  }

  /** The step stops on a document without a truthy `lang` exactly when
      there is one, and names the collection and the first such document. */
  lemma PairDocsMissingLang(c: Collection)
    ensures (PairDocs(c).Failure? && PairDocs(c).error.MissingLang?) <==>
      exists i :: 0 <= i < |c.docs| && !HasLang(c.docs[i])
    ensures PairDocs(c).Failure? && PairDocs(c).error.MissingLang? ==>
      var err := PairDocs(c).error;
      err.collection == c.name &&
      exists i :: 0 <= i < |c.docs| && c.docs[i] == err.doc && !HasLang(c.docs[i]) &&
        forall j :: 0 <= j < i ==> HasLang(c.docs[j])
  {
    var en := GetTargetLangDoc(c.name, c.docs, "en");
    if en.Success? {
      assert GetTargetLangDoc(c.name, c.docs, "ua").Failure? ==> !GetTargetLangDoc(c.name, c.docs, "ua").error.MissingLang?;
    }
  }

  /** The step stops with `NoLangDoc` exactly when every document has a
      `lang` but one of the two languages has no document; the error
      carries the collection and all its documents. */
  lemma PairDocsNoLangDoc(c: Collection)
    ensures (PairDocs(c).Failure? && PairDocs(c).error.NoLangDoc?) <==>
      (forall i :: 0 <= i < |c.docs| ==> HasLang(c.docs[i])) &&
      ((forall i :: 0 <= i < |c.docs| ==> !IsLang(c.docs[i], "en")) ||
       (forall i :: 0 <= i < |c.docs| ==> !IsLang(c.docs[i], "ua")))
    ensures PairDocs(c).Failure? && PairDocs(c).error.NoLangDoc? ==>
      PairDocs(c).error == NoLangDoc(c.name, c.docs)
  {
    var en := GetTargetLangDoc(c.name, c.docs, "en");
    var uk := GetTargetLangDoc(c.name, c.docs, "ua");
    if en.Success? {
      assert exists i :: 0 <= i < |c.docs| && IsLang(c.docs[i], "en");
    }
    if en.Success? && uk.Success? {
      assert exists i :: 0 <= i < |c.docs| && IsLang(c.docs[i], "ua");
    }
  }

  /** The step stops with `CountMismatch` exactly when both languages are
      found but their last documents differ in key count; the error carries
      the `en` document without its `lang`. */
  lemma PairDocsCountMismatch(c: Collection)
    ensures (PairDocs(c).Failure? && PairDocs(c).error.CountMismatch?) <==>
      (forall i :: 0 <= i < |c.docs| ==> HasLang(c.docs[i])) &&
      exists e, u :: IsLastMatch(c.docs, "en", e) && IsLastMatch(c.docs, "ua", u) && |c.docs[e]| != |c.docs[u]|
    ensures PairDocs(c).Failure? && PairDocs(c).error.CountMismatch? ==>
      exists e :: IsLastMatch(c.docs, "en", e) && PairDocs(c).error == CountMismatch(Some(Without(c.docs[e], "lang")))
  {
    var en := GetTargetLangDoc(c.name, c.docs, "en");
    var uk := GetTargetLangDoc(c.name, c.docs, "ua");
    if en.Success? && uk.Success? {
      var e :| IsLastMatch(c.docs, "en", e) && en.value == Without(c.docs[e], "lang") && |en.value| + 1 == |c.docs[e]|;
      var u :| IsLastMatch(c.docs, "ua", u) && uk.value == Without(c.docs[u], "lang") && |uk.value| + 1 == |c.docs[u]|;
      forall e', u' | IsLastMatch(c.docs, "en", e') && IsLastMatch(c.docs, "ua", u')
        ensures e' == e && u' == u
      {
      }
    }
  }
}
