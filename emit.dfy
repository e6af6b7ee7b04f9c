/** The text emitters of the Android and iOS exporters: one line per
    flattened entry (index.js:142-146, 189-193) and the file around the
    per-collection chunks (index.js:170-176, 217-222). */
module Emit {
  import opened Wrappers
  import opened Documents
  import opened Flatten

  /** `parts.join('\n')` (index.js:145, 176, 192, 222): it starts with the
      first part, a newline follows it when more parts come, and it is empty
      only for no parts or one empty part. */
  function JoinLines(parts: seq<string>): (r: string)
    ensures parts != [] ==> parts[0] <= r
    ensures |parts| >= 2 ==> |parts[0]| < |r| && r[|parts[0]|] == '\n'
    ensures r == "" <==> parts == [] || parts == [""]
  {
    if parts == [] then ""
    else if |parts| == 1 then parts[0]
    else parts[0] + "\n" + JoinLines(parts[1..])
  }

  /** `s.split('\n')`. */
  function SplitLines(s: string): (r: seq<string>)
    ensures |r| >= 1
  {
    if s == [] then [""]
    else
      var rest := SplitLines(s[1..]);
      if s[0] == '\n' then [""] + rest else [[s[0]] + rest[0]] + rest[1..]
  }

  /** Joining two non-empty lists puts one newline between their joins. */
  lemma {:induction false} JoinLinesAppend(a: seq<string>, b: seq<string>)
    requires a != [] && b != []
    ensures JoinLines(a + b) == JoinLines(a) + "\n" + JoinLines(b)
  {
    if |a| > 1 {
      assert (a + b)[1..] == a[1..] + b;
      JoinLinesAppend(a[1..], b);
    } else {
      assert (a + b)[1..] == b;
    }
  }

  lemma {:induction false} SplitNoNewline(p: string)
    requires '\n' !in p
    ensures SplitLines(p) == [p]
  {
    if p != [] {
      SplitNoNewline(p[1..]);
      assert [p[0]] + p[1..] == p;
    }
  }

  lemma {:induction false} SplitAfterLine(p: string, t: string)
    requires '\n' !in p
    ensures SplitLines(p + "\n" + t) == [p] + SplitLines(t)
  {
    var s := p + "\n" + t;
    if p == [] {
      assert s[1..] == t;
    } else {
      assert s[1..] == p[1..] + "\n" + t;
      SplitAfterLine(p[1..], t);
      assert [p[0]] + p[1..] == p;
    }
  }

  /** Lines without a newline are recovered by splitting their join. */
  lemma {:induction false} SplitJoinLines(parts: seq<string>)
    requires parts != []
    requires forall i :: 0 <= i < |parts| ==> '\n' !in parts[i]
    ensures SplitLines(JoinLines(parts)) == parts
  {
    if |parts| == 1 {
      SplitNoNewline(parts[0]);
    } else {
      SplitJoinLines(parts[1..]);
      SplitAfterLine(parts[0], JoinLines(parts[1..]));
      assert [parts[0]] + parts[1..] == parts;
    }
  }

  /** The join of each group of lines. */
  function JoinEach(groups: seq<seq<string>>): seq<string> {
    if groups == [] then [] else [JoinLines(groups[0])] + JoinEach(groups[1..])
  }

  function Concat(groups: seq<seq<string>>): seq<string> {
    if groups == [] then [] else groups[0] + Concat(groups[1..])
  }

  /** Joining per-collection chunks leaves no trace of the collections: as
      long as no chunk is empty, it is the join of all their lines. */
  lemma {:induction false} JoinLinesFlatten(groups: seq<seq<string>>)
    requires forall i :: 0 <= i < |groups| ==> groups[i] != []
    ensures JoinLines(JoinEach(groups)) == JoinLines(Concat(groups))
  {
    if |groups| == 1 {
      assert groups[1..] == [];
      assert JoinEach(groups) == [JoinLines(groups[0])];
      assert Concat(groups) == groups[0] + [] == groups[0];
    } else if |groups| > 1 {
      var rest := groups[1..];
      JoinLinesFlatten(rest);
      assert rest[0] == groups[1];
      assert Concat(rest) == rest[0] + Concat(rest[1..]);
      JoinLinesAppend(groups[0], Concat(rest));
      assert JoinEach(groups)[1..] == JoinEach(rest);
    }
  }

  // ---- one line per entry ----

  const XmlOpen := "<string name=\""
  const XmlMid := "\">"
  const XmlClose := "</string>"
  const IosOpen := "\""
  const IosMid := "\" = "
  const IosClose := ""

  /** `<string name="${key}">${value}</string>`, nothing escaped. */
  function XmlLine(e: Entry): string {
    XmlOpen + e.key + XmlMid + Show(e.value) + XmlClose
  }

  /** `"${key}" = ${value}`: the value is neither quoted nor escaped and no
      `;` ends the line. */
  function IosLine(e: Entry): string {
    IosOpen + e.key + IosMid + Show(e.value) + IosClose
  }

  /** `entries.map(line)`. */
  function Lines(es: seq<Entry>, line: Entry -> string): (r: seq<string>)
    ensures |r| == |es|
  {
    if es == [] then [] else [line(es[0])] + Lines(es[1..], line)
  }

  lemma {:induction false} LinesAt(es: seq<Entry>, line: Entry -> string, i: nat)
    requires i < |es|
    ensures |Lines(es, line)| == |es| && Lines(es, line)[i] == line(es[i])
  {
    if i > 0 {
      LinesAt(es[1..], line, i - 1);
    } else if |es| > 1 {
      LinesAt(es[1..], line, 0);
    }
  }

  /** _convertJsonToXML (index.js:142-146): empty exactly for a document
      without properties, otherwise it opens with the first resource tag of
      the collection. */
  function ConvertToXml(collection: string, data: seq<Field>): (s: string)
    ensures s == "" <==> data == []
    ensures data != [] ==> XmlOpen + collection + "_" <= s
  {
    var es := Qualify(collection, data);
    var ls := Lines(es, XmlLine);
    assert data != [] ==> ls[0] == XmlOpen + es[0].key + XmlMid + Show(es[0].value) + XmlClose by {
      if data != [] { LinesAt(es, XmlLine, 0); }
    }
    JoinLines(ls)
  }

  /** _convertJsonToIosFormat (index.js:189-193): empty exactly for a
      document without properties, otherwise it opens with the first quoted
      key of the collection. */
  function ConvertToIos(collection: string, data: seq<Field>): (s: string)
    ensures s == "" <==> data == []
    ensures data != [] ==> IosOpen + collection + "_" <= s
  {
    var es := Qualify(collection, data);
    var ls := Lines(es, IosLine);
    assert data != [] ==> ls[0] == IosOpen + es[0].key + IosMid + Show(es[0].value) + IosClose by {
      if data != [] { LinesAt(es, IosLine, 0); }
    }
    JoinLines(ls)
  }

  /** The chunk of one collection is its entries' lines, in document order:
      line `i` is property `i` under its qualified key. */
  lemma ChunkLines(collection: string, data: seq<Field>, line: Entry -> string, i: nat)
    requires i < |data|
    ensures |Lines(Qualify(collection, data), line)| == |data|
    ensures Lines(Qualify(collection, data), line)[i] ==
      line(Field(Qualified(collection, data[i].key), data[i].value))
  {
    QualifyAt(collection, data, i);
    LinesAt(Qualify(collection, data), line, i);
  }

  // ---- reading a line back ----

  /** The position of the first `"`. */
  function FindQuote(s: string): (r: Option<nat>)
    ensures r.Some? ==> r.value < |s| && s[r.value] == '"' && '"' !in s[..r.value]
    ensures r.None? ==> '"' !in s
  {
    if s == [] then None
    else if s[0] == '"' then Some(0)
    else match FindQuote(s[1..])
      case None => None
      case Some(i) =>
        assert s[..i + 1] == [s[0]] + s[1..][..i];
        Some(i + 1)
  }

  /** Reads `open + key + mid + value + close` back into `(key, value)`, the
      key ending at the first `"`. */
  function Unframe(open: string, mid: string, close: string, line: string): Option<(string, string)> {
    if |line| < |open| + |close| || line[..|open|] != open || line[|line| - |close|..] != close then None
    else
      var inner := line[|open|..|line| - |close|];
      match FindQuote(inner)
      case None => None
      case Some(q) =>
        if |inner| - q < |mid| || inner[q..q + |mid|] != mid then None
        else Some((inner[..q], inner[q + |mid|..]))
  }

  lemma FindQuoteAfter(k: string, t: string)
    requires '"' !in k && t != [] && t[0] == '"'
    ensures FindQuote(k + t) == Some(|k|)
  {
    var s := k + t;
    assert s[|k|] == '"' && s[..|k|] == k;
  }

  lemma UnframeFrame(open: string, mid: string, close: string, k: string, v: string)
    requires mid != [] && mid[0] == '"' && '"' !in k
    ensures Unframe(open, mid, close, open + k + mid + v + close) == Some((k, v))
  {
    var line := open + k + mid + v + close;
    assert line[..|open|] == open;
    assert line[|line| - |close|..] == close;
    var inner := line[|open|..|line| - |close|];
    assert inner == k + (mid + v);
    FindQuoteAfter(k, mid + v);
    assert inner[|k|..|k| + |mid|] == mid;
    assert inner[..|k|] == k && inner[|k| + |mid|..] == v;
  }

  /** An Android line gives back its key and its written value, as long as
      the key has no `"` (nothing is escaped). */
  lemma XmlLineRoundTrip(e: Entry)
    requires '"' !in e.key
    ensures Unframe(XmlOpen, XmlMid, XmlClose, XmlLine(e)) == Some((e.key, Show(e.value)))
  {
    UnframeFrame(XmlOpen, XmlMid, XmlClose, e.key, Show(e.value));
  }

  /** An iOS line gives back its key and its raw value, as long as the key
      has no `"`. */
  lemma IosLineRoundTrip(e: Entry)
    requires '"' !in e.key
    ensures Unframe(IosOpen, IosMid, IosClose, IosLine(e)) == Some((e.key, Show(e.value)))
  {
    UnframeFrame(IosOpen, IosMid, IosClose, e.key, Show(e.value));
  }

  // ---- the files ----

  const AndroidPrefix := "<?xml version=\"1.0\" encoding=\"utf-8\"?>\n<resources>\n\n"
  const AndroidPostfix := "\n\n</resources>"

  /** `[prefix, ...content, postfix].join('\n')` (index.js:170-176): the
      file opens with the XML prolog and ends with the closing tag. */
  function AndroidFile(chunks: seq<string>): (s: string)
    ensures AndroidPrefix <= s
    ensures |AndroidPostfix| <= |s| && s[|s| - |AndroidPostfix|..] == AndroidPostfix
  {
    var parts := [AndroidPrefix] + chunks;
    JoinLinesAppend(parts, [AndroidPostfix]);
    assert parts[0] == AndroidPrefix;
    JoinLines(parts + [AndroidPostfix])
  }

  /** The iOS header comment; the generation time is a parameter. */
  function IosHeader(timestamp: string): string {
    "/*\n\tLocalizable.strings\n\tDucky\n\tCreated by https://hub.docker.com/r/fnnzzz/ducky-localize\n\ton "
      + timestamp + "\n*/\n\n"
  }

  /** `[prefix, ...content].join('\n')` (index.js:217-222): the file opens
      with the header and is nothing more exactly when there are no chunks. */
  function IosFile(timestamp: string, chunks: seq<string>): (s: string)
    ensures IosHeader(timestamp) <= s
    ensures s == IosHeader(timestamp) <==> chunks == []
  {
    var parts := [IosHeader(timestamp)] + chunks;
    assert parts[0] == IosHeader(timestamp);
    assert chunks == [] ==> parts == [IosHeader(timestamp)];
    JoinLines(parts)
  }

  /** The Android file is the prolog, a newline, the chunks one per line and,
      after one more newline, the closing tag. */
  lemma {:induction false} AndroidFileShape(chunks: seq<string>)
    ensures AndroidFile(chunks) ==
      AndroidPrefix + "\n" + (if chunks == [] then "" else JoinLines(chunks) + "\n") + AndroidPostfix
  {
    var pre, post := AndroidPrefix, AndroidPostfix;
    JoinLinesAppend([pre], chunks + [post]);
    assert [pre] + chunks + [post] == [pre] + (chunks + [post]);
    if chunks == [] {
      assert chunks + [post] == [post];
    } else {
      JoinLinesAppend(chunks, [post]);
    }
  }

  /** The iOS file is the header followed by the chunks, one newline apart. */
  lemma {:induction false} IosFileShape(timestamp: string, chunks: seq<string>)
    ensures IosFile(timestamp, chunks) ==
      IosHeader(timestamp) + (if chunks == [] then "" else "\n" + JoinLines(chunks))
  {
    var h := IosHeader(timestamp);
    if chunks == [] {
      assert [h] + chunks == [h];
    } else {
      JoinLinesAppend([h], chunks);
    }
  }

  /** A one-property `greeting` document becomes exactly one resource line. */
  lemma GreetingXml()
    ensures ConvertToXml("greeting", [Field("hello", Str("Hi"))]) ==
      "<string name=\"greeting_hello\">Hi</string>"
  {
    var data := [Field("hello", Str("Hi"))];
    assert data[1..] == [];
    var es := Qualify("greeting", data);
    assert Qualified("greeting", "hello") == "greeting_hello";
    assert es == [Field("greeting_hello", Str("Hi"))];
    assert es[1..] == [];
    assert Lines(es, XmlLine) == [XmlLine(es[0])];
    assert Show(Str("Hi")) == "Hi";
    assert XmlLine(es[0]) == XmlOpen + "greeting_hello" + XmlMid + "Hi" + XmlClose;
  }
}
