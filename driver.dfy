/** The three converters (converterJs, converterAndroid, converterIos):
    for each collection, match `en` and `ua`, check parity and append that
    collection's content to the running `en`/`uk` lists; once every
    collection is counted, build the two artifacts. */
module Driver {
  import opened Wrappers
  import opened Documents
  import opened Matcher
  import opened Flatten
  import opened JsonMerge
  import opened Emit

  /** The running `enContent` and `ukContent` lists. */
  datatype Contents<T> = Contents(en: seq<T>, uk: seq<T>)

  /** What one run of a converter ends with. */
  datatype Run<A> =
    | Written(en: A, uk: A)  // both artifacts were built and handed to the writer
    | Aborted(error: Error)  // `process.exit(1)`
    | Unfinished             // the completion test `counter === collections.length` never ran

  /** The content lists after the given collections, taken in order; a
      collection without documents adds nothing. */
  function Collect<T>(cols: seq<Collection>, chunk: (string, Document) -> seq<T>): Result<Contents<T>, Error> {
    if cols == [] then Success(Contents([], []))
    else Step(Collect(cols[..|cols| - 1], chunk), cols[|cols| - 1], chunk)
  }

  /** One collection's turn of the loop body (index.js:103-122): an earlier
      exit stays an exit, and content already gathered is only appended to. */
  function Step<T>(acc: Result<Contents<T>, Error>, c: Collection, chunk: (string, Document) -> seq<T>): (r: Result<Contents<T>, Error>)
    ensures acc.Failure? ==> r == acc
    ensures r.Success? ==> acc.Success? && acc.value.en <= r.value.en && acc.value.uk <= r.value.uk
  {
    var prev :- acc;
    if c.docs == [] then Success(prev)
    else
      var pair :- PairDocs(c);
      Success(Contents(prev.en + chunk(c.name, pair.0), prev.uk + chunk(c.name, pair.1)))
  }

  lemma CollectUnfold<T>(cols: seq<Collection>, chunk: (string, Document) -> seq<T>)
    requires cols != []
    ensures Collect(cols, chunk) == Step(Collect(cols[..|cols| - 1], chunk), cols[|cols| - 1], chunk)
  {
  }

  /** How a converter run over `cols` ends (index.js:124): with no
      collections the completion test never runs; otherwise the run is
      written exactly when every collection has passed. */
  function Outcome<T>(cols: seq<Collection>, chunk: (string, Document) -> seq<T>): (r: Run<seq<T>>)
    ensures r.Unfinished? <==> cols == []
    ensures r.Written? <==> cols != [] && Collect(cols, chunk).Success?
  {
    if cols == [] then Unfinished
    else
      match Collect(cols, chunk)
      case Failure(e) => Aborted(e)
      case Success(c) => Written(c.en, c.uk)
  }

  /** Once a prefix of the collections fails, the whole run fails the same way. */
  lemma {:induction false} CollectFailureSticks<T>(cols: seq<Collection>, chunk: (string, Document) -> seq<T>, j: nat)
    requires j <= |cols| && Collect(cols[..j], chunk).Failure?
    ensures Collect(cols, chunk) == Collect(cols[..j], chunk)
  {
    if j < |cols| {
      var init := cols[..|cols| - 1];
      assert init[..j] == cols[..j];
      CollectFailureSticks(init, chunk, j);
    } else {
      assert cols[..j] == cols;
    }
  }

  /** The collection loop shared by the three converters (index.js:98-124,
      148-169, 195-216), run over the collections in order. */
  method Gather<T>(cols: seq<Collection>, chunk: (string, Document) -> seq<T>) returns (r: Run<seq<T>>)
    ensures r == Outcome(cols, chunk)
  {
    var counter := 0;
    var enContent: seq<T> := [];
    var ukContent: seq<T> := [];
    r := Unfinished;
    var i := 0;
    while i < |cols|
      invariant 0 <= i <= |cols| && counter == i
      invariant Collect(cols[..i], chunk) == Success(Contents(enContent, ukContent))
      invariant r == if 0 < i == |cols| then Written(enContent, ukContent) else Unfinished
    {
      var c := cols[i];
      assert Collect(cols[..i + 1], chunk) == Step(Collect(cols[..i], chunk), c, chunk) by {
        CollectUnfold(cols[..i + 1], chunk);
        assert cols[..i + 1][..i] == cols[..i] && cols[..i + 1][i] == c;
      }
      if |c.docs| > 0 {
        var en := GetTargetLangDoc(c.name, c.docs, "en");
        if en.Failure? {
          CollectFailureSticks(cols, chunk, i + 1);
          return Aborted(en.error);
        }
        var uk := GetTargetLangDoc(c.name, c.docs, "ua");
        if uk.Failure? {
          CollectFailureSticks(cols, chunk, i + 1);
          return Aborted(uk.error);
        }
        var parity := CheckSameCount(Some(en.value), Some(uk.value));
        if parity.Failure? {
          CollectFailureSticks(cols, chunk, i + 1);
          return Aborted(parity.error);
        }
        assert PairDocs(c) == Success((en.value, uk.value));
        enContent := enContent + chunk(c.name, en.value);
        ukContent := ukContent + chunk(c.name, uk.value);
        counter := counter + 1;
      } else {
        counter := counter + 1;
      }
      if counter == |cols| {
        r := Written(enContent, ukContent);
      }
      i := i + 1;
    }
    assert cols[..i] == cols;
  }

  /** A run completes exactly when every collection with documents passes
      the matcher and the parity check. */
  lemma CollectSucceeds<T>(cols: seq<Collection>, chunk: (string, Document) -> seq<T>)
    ensures Collect(cols, chunk).Success? <==>
      forall i :: 0 <= i < |cols| && cols[i].docs != [] ==> PairDocs(cols[i]).Success?
  {
    CollectAllPair(cols, chunk);
    AllPairEvery(cols);
  }

  /** Every collection with documents pairs up, stated the way `Collect`
      walks the list. */
  predicate AllPair(cols: seq<Collection>) {
    cols == [] ||
    (AllPair(cols[..|cols| - 1]) &&
     (cols[|cols| - 1].docs != [] ==> PairDocs(cols[|cols| - 1]).Success?))
  }

  lemma {:induction false} CollectAllPair<T>(cols: seq<Collection>, chunk: (string, Document) -> seq<T>)
    ensures Collect(cols, chunk).Success? <==> AllPair(cols)
  {
    if cols != [] {
      CollectSucceedsLast(cols, chunk);
      CollectAllPair(cols[..|cols| - 1], chunk);
    }
  }

  lemma {:induction false} AllPairEvery(cols: seq<Collection>)
    ensures AllPair(cols) <==> forall i :: 0 <= i < |cols| && cols[i].docs != [] ==> PairDocs(cols[i]).Success?
  {
    if cols != [] {
      var init, last := cols[..|cols| - 1], cols[|cols| - 1];
      AllPairEvery(init);
      if AllPair(cols) {
        forall i | 0 <= i < |cols| && cols[i].docs != [] ensures PairDocs(cols[i]).Success? {
          if i < |init| { assert cols[i] == init[i]; }
        }
      } else if !AllPair(init) {
        var i :| 0 <= i < |init| && init[i].docs != [] && !PairDocs(init[i]).Success?;
        assert cols[i] == init[i];
      }
    }
  }

  /** A run passes exactly when the run over all but the last collection
      passes and the last collection is empty or pairs up. */
  lemma CollectSucceedsLast<T>(cols: seq<Collection>, chunk: (string, Document) -> seq<T>)
    requires cols != []
    ensures Collect(cols, chunk).Success? <==>
      Collect(cols[..|cols| - 1], chunk).Success? &&
      (cols[|cols| - 1].docs != [] ==> PairDocs(cols[|cols| - 1]).Success?)
  {
    CollectUnfold(cols, chunk);
  }

  /** A failed run reports the error of the first collection that fails. */
  lemma {:induction false} CollectFirstError<T>(cols: seq<Collection>, chunk: (string, Document) -> seq<T>)
    requires Collect(cols, chunk).Failure?
    ensures exists i :: 0 <= i < |cols| && cols[i].docs != [] &&
                        PairDocs(cols[i]) == Failure(Collect(cols, chunk).error) &&
                        forall j :: 0 <= j < i && cols[j].docs != [] ==> PairDocs(cols[j]).Success?
  {
    var init := cols[..|cols| - 1];
    assert forall i :: 0 <= i < |init| ==> init[i] == cols[i];
    if Collect(init, chunk).Failure? {
      CollectFirstError(init, chunk);
    } else {
      CollectSucceeds(init, chunk);
      assert PairDocs(cols[|cols| - 1]) == Failure(Collect(cols, chunk).error);
    }
  }

  /** A document without a `lang` anywhere aborts the run: no artifact is built. */
  lemma MissingLangAborts<T>(cols: seq<Collection>, chunk: (string, Document) -> seq<T>, i: nat, k: nat)
    requires i < |cols| && k < |cols[i].docs| && !HasLang(cols[i].docs[k])
    ensures Collect(cols, chunk).Failure?
    ensures Outcome(cols, chunk).Aborted?
  {
    CollectSucceeds(cols, chunk);
  }

  /** The collections that have documents, in order. */
  function NonEmpty(cols: seq<Collection>): seq<Collection> {
    if cols == [] then []
    else
      var last := cols[|cols| - 1];
      NonEmpty(cols[..|cols| - 1]) + (if last.docs == [] then [] else [last])
  }

  /** Collections without documents change nothing but the counter. */
  lemma {:induction false} CollectSkipsEmpty<T>(cols: seq<Collection>, chunk: (string, Document) -> seq<T>)
    ensures Collect(cols, chunk) == Collect(NonEmpty(cols), chunk)
  {
    if cols != [] {
      var init := cols[..|cols| - 1];
      var last := cols[|cols| - 1];
      CollectSkipsEmpty(init, chunk);
      CollectUnfold(cols, chunk);
      if last.docs == [] {
        assert NonEmpty(cols) == NonEmpty(init);
      } else {
        assert NonEmpty(cols) == NonEmpty(init) + [last];
        assert Step(Collect(init, chunk), last, chunk) == Collect(NonEmpty(init) + [last], chunk) by {
          var ne := NonEmpty(init) + [last];
          CollectUnfold(ne, chunk);
          assert ne[..|ne| - 1] == NonEmpty(init);
        }
      }
    }
  }

  /** With one chunk per document (Android, iOS), each language gets exactly
      one chunk per collection that has documents. */
  lemma {:induction false} OneChunkPerCollection<T>(cols: seq<Collection>, chunk: (string, Document) -> seq<T>)
    requires forall name, d :: |chunk(name, d)| == 1
    requires Collect(cols, chunk).Success?
    ensures |Collect(cols, chunk).value.en| == |NonEmpty(cols)|
    ensures |Collect(cols, chunk).value.uk| == |NonEmpty(cols)|
  {
    if cols != [] {
      OneChunkPerCollection(cols[..|cols| - 1], chunk);
    }
  }

  /** A single collection with documents contributes its paired documents' chunks. */
  lemma CollectOne<T>(c: Collection, e: Document, u: Document, chunk: (string, Document) -> seq<T>)
    requires c.docs != [] && PairDocs(c) == Success((e, u))
    ensures Collect([c], chunk) == Success(Contents(chunk(c.name, e), chunk(c.name, u)))
  {
    CollectUnfold([c], chunk);
    assert [c][..0] == [];
    var a, b := chunk(c.name, e), chunk(c.name, u);
    assert Step(Success(Contents([], [])), c, chunk) == Success(Contents([] + a, [] + b));
    assert [] + a == a && [] + b == b;
  }

  lemma GreetingPair(hi: Value, pryvit: Value)
    ensures
      var en: Document := [Field("lang", Str("en")), Field("hello", hi)];
      var ua: Document := [Field("lang", Str("ua")), Field("hello", pryvit)];
      PairDocs(Collection("greeting", [en, ua])) == Success(([Field("hello", hi)], [Field("hello", pryvit)]))
  {
    GreetingTarget(hi, pryvit, "en", 0);
    GreetingTarget(hi, pryvit, "ua", 1);
  }

  /** In the `greeting` pair, each language finds its own document. */
  lemma GreetingTarget(hi: Value, pryvit: Value, lang: string, i: nat)
    requires (lang == "en" && i == 0) || (lang == "ua" && i == 1)
    ensures
      var en: Document := [Field("lang", Str("en")), Field("hello", hi)];
      var ua: Document := [Field("lang", Str("ua")), Field("hello", pryvit)];
      GetTargetLangDoc("greeting", [en, ua], lang) == Success([Field("hello", if i == 0 then hi else pryvit)])
  {
    var en: Document := [Field("lang", Str("en")), Field("hello", hi)];
    var ua: Document := [Field("lang", Str("ua")), Field("hello", pryvit)];
    var docs := [en, ua];
    var rest: Document := [Field("hello", if i == 0 then hi else pryvit)];
    GetAt(en, 0);
    GetAt(ua, 0);
    assert HasLang(docs[0]) && HasLang(docs[1]);
    assert IsLastMatch(docs, lang, i);
    GetLastMatch("greeting", docs, lang, i);
    assert docs[i] == [Field("lang", Str(lang))] + rest;
    WithoutSplit(docs[i], [], Str(lang), rest, "lang");
    assert [] + rest == rest;
  }

  lemma GreetingData(v: Value)
    ensures JsChunk("greeting", [Field("hello", v)]) == [Field("greeting_hello", v)]
  {
    var d := [Field("hello", v)];
    assert Qualified("greeting", "hello") == "greeting_hello";
    assert d[1..] == [] && d[0].key != "_id";
    assert GetData("greeting", d[1..]) == [];
  }

  /** A `greeting` collection with `{hello: "Hi"}` in `en` and
      `{hello: "Привіт"}` in `ua` yields `greeting_hello` in both languages. */
  lemma GreetingEntries()
    ensures
      var en: Document := [Field("lang", Str("en")), Field("hello", Str("Hi"))];
      var ua: Document := [Field("lang", Str("ua")), Field("hello", Str("Привіт"))];
      Collect([Collection("greeting", [en, ua])], JsChunk) ==
        Success(Contents([Field("greeting_hello", Str("Hi"))], [Field("greeting_hello", Str("Привіт"))]))
  {
    var hi, pryvit := Str("Hi"), Str("Привіт");
    var en: Document := [Field("lang", Str("en")), Field("hello", hi)];
    var ua: Document := [Field("lang", Str("ua")), Field("hello", pryvit)];
    GreetingPair(hi, pryvit);
    CollectOne(Collection("greeting", [en, ua]), [Field("hello", hi)], [Field("hello", pryvit)], JsChunk);
    GreetingData(hi);
    GreetingData(pryvit);
  }

  // ---- the three platforms ----

  /** One output file: where it goes and what it holds. */
  datatype Artifact<A> = Artifact(path: string, content: A)

  /** The web exporter appends the flattened entries (index.js:113-114). */
  function JsChunk(name: string, d: Document): (r: seq<Entry>)
    ensures |r| == if HasKey(d, "_id") then |d| - 1 else |d|
    ensures DistinctKeys(r)
  {
    GetDataSize(name, d);
    GetData(name, d)
  }

  /** The Android exporter appends one chunk of resource lines (index.js:162-163). */
  function AndroidChunk(name: string, d: Document): (r: seq<string>)
    ensures |r| == 1
    ensures r[0] == "" <==> RemoveId(d) == []
  {
    [ConvertToXml(name, RemoveId(d))]
  }

  /** The iOS exporter appends one chunk of `.strings` lines (index.js:209-210). */
  function IosChunk(name: string, d: Document): (r: seq<string>)
    ensures |r| == 1
    ensures r[0] == "" <==> RemoveId(d) == []
  {
    [ConvertToIos(name, RemoveId(d))]
  }

  /** A completed Android run holds one resource chunk per collection with
      documents, in each language. */
  lemma AndroidChunkPerCollection(cols: seq<Collection>)
    requires Collect(cols, AndroidChunk).Success?
    ensures |Collect(cols, AndroidChunk).value.en| == |NonEmpty(cols)|
    ensures |Collect(cols, AndroidChunk).value.uk| == |NonEmpty(cols)|
  {
    OneChunkPerCollection(cols, AndroidChunk);
  }

  /** converterJs (index.js:83-138): the merged object per language. */
  method ConvertJs(cols: seq<Collection>) returns (r: Run<Artifact<Document>>)
    ensures r.Unfinished? <==> cols == []
    ensures r.Aborted? <==> cols != [] && Collect(cols, JsChunk).Failure?
    ensures r.Aborted? ==> r.error == Collect(cols, JsChunk).error
    ensures r.Written? ==>
      && r.en == Artifact("./localization-artifacts/localization-en.json", Merge(Collect(cols, JsChunk).value.en))
      && r.uk == Artifact("./localization-artifacts/localization-uk.json", Merge(Collect(cols, JsChunk).value.uk))
  {
    var g := Gather(cols, JsChunk);
    match g
    case Written(en, uk) =>
      r := Written(Artifact("./localization-artifacts/localization-en.json", Merge(en)),
                   Artifact("./localization-artifacts/localization-uk.json", Merge(uk)));
    case Aborted(e) => r := Aborted(e);
    case Unfinished => r := Unfinished;
  }

  /** converterAndroid (index.js:140-185): one XML resources file per language. */
  method ConvertAndroid(cols: seq<Collection>) returns (r: Run<Artifact<string>>)
    ensures r.Unfinished? <==> cols == []
    ensures r.Aborted? <==> cols != [] && Collect(cols, AndroidChunk).Failure?
    ensures r.Aborted? ==> r.error == Collect(cols, AndroidChunk).error
    ensures r.Written? ==>
      && r.en == Artifact("./localization-artifacts/localization-en.xml", AndroidFile(Collect(cols, AndroidChunk).value.en))
      && r.uk == Artifact("./localization-artifacts/localization-uk.xml", AndroidFile(Collect(cols, AndroidChunk).value.uk))
  {
    var g := Gather(cols, AndroidChunk);
    match g
    case Written(en, uk) =>
      r := Written(Artifact("./localization-artifacts/localization-en.xml", AndroidFile(en)),
                   Artifact("./localization-artifacts/localization-uk.xml", AndroidFile(uk)));
    case Aborted(e) => r := Aborted(e);
    case Unfinished => r := Unfinished;
  }

  /** converterIos (index.js:187-231): one `.strings` file per language; the
      header's generation time is passed in. */
  method ConvertIos(cols: seq<Collection>, timestamp: string) returns (r: Run<Artifact<string>>)
    ensures r.Unfinished? <==> cols == []
    ensures r.Aborted? <==> cols != [] && Collect(cols, IosChunk).Failure?
    ensures r.Aborted? ==> r.error == Collect(cols, IosChunk).error
    ensures r.Written? ==>
      && r.en == Artifact("./localization-artifacts/Localizable_EN.strings", IosFile(timestamp, Collect(cols, IosChunk).value.en))
      && r.uk == Artifact("./localization-artifacts/Localizable_UK.strings", IosFile(timestamp, Collect(cols, IosChunk).value.uk))
  {
    var g := Gather(cols, IosChunk);
    match g
    case Written(en, uk) =>
      r := Written(Artifact("./localization-artifacts/Localizable_EN.strings", IosFile(timestamp, en)),
                   Artifact("./localization-artifacts/Localizable_UK.strings", IosFile(timestamp, uk)));
    case Aborted(e) => r := Aborted(e);
    case Unfinished => r := Unfinished;
  }
}
