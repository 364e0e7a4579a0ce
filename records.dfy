/** The on-disk article record: the layout `save_article` writes
    (crawl.py) and the parse `load_documents` applies to it
    (build_embeddings.py). JSON encoding and decoding are library calls
    outside the model; they are passed in as functions. */
module Records {
  import opened Strings

  /** A JSON object of strings, the only kind of metadata the pipeline writes. */
  type Metadata = map<string, string>

  const MetadataDelimiter: string := "----- METADATA -----"
  const ContentDelimiter: string := "----- CONTENT -----"

  /** The placeholder used when a record cannot be parsed. */
  const UnknownMetadata: Metadata := map["source" := "unknown", "url" := "unknown"]

  /** `json.loads`: `None` stands for the exception it raises on bad input. */
  type JsonDecoder = string -> Option<Metadata>

  /** What one file contributes to the corpus: `(content_part.strip(), metadata)`. */
  datatype Document = Document(text: string, metadata: Metadata)

  /** The bytes the writer puts in a file, given the JSON dump of the metadata. */
  function Layout(json: string, text: string): string {
    MetadataDelimiter + "\n" + json + "\n\n" + ContentDelimiter + "\n\n" + text
  }

  /** Python's `content.split(ContentDelimiter)[1]` — the text between the first
      delimiter, which ends at `after`, and the next one (or the end). */
  function SecondPart(content: string, after: nat): (r: string)
    requires after <= |content|
    ensures after + |r| <= |content| && r == content[after..after + |r|]
    ensures forall k: nat :: after <= k < after + |r| ==> !OccursAt(content, ContentDelimiter, k)
    ensures after + |r| == |content| || OccursAt(content, ContentDelimiter, after + |r|)
    ensures !Contains(r, ContentDelimiter) || after + |r| == |content|
  {
    match IndexOfFrom(content, ContentDelimiter, after)
    case None => content[after..]
    case Some(j) =>
      var r := content[after..j];
      NoEarlierOccurrence(content, after, j, r);
      r
  }

  /** A part that ends before the next occurrence after `after` does not itself contain the delimiter. */
  lemma NoEarlierOccurrence(content: string, after: nat, j: nat, r: string)
    requires after <= j <= |content| && r == content[after..j]
    requires forall k: nat :: after <= k < j ==> !OccursAt(content, ContentDelimiter, k)
    ensures !Contains(r, ContentDelimiter)
  {
    ContainsIff(r, ContentDelimiter);
    if exists k: nat :: OccursAt(r, ContentDelimiter, k) {
      var k: nat :| OccursAt(r, ContentDelimiter, k);
      OccursInSlice(content, ContentDelimiter, after, j, k);
    }
  }

  /** The body of the `try` in `load_documents`, with its `except` fallback. */
  function ParseRecord(content: string, loads: JsonDecoder): Document {
    match IndexOfFrom(content, ContentDelimiter, 0)
    case None => Document(Strip(content), UnknownMetadata)
    case Some(i) =>
      var metadataJson := Strip(RemoveAll(content[..i], MetadataDelimiter));
      match loads(metadataJson)
      case None => Document(Strip(content), UnknownMetadata)
      case Some(m) => Document(Strip(SecondPart(content, i + |ContentDelimiter|)), m)
  }

  /** A record without the content delimiter keeps the whole file as text and gets placeholder metadata. */
  lemma FallbackWithoutDelimiter(content: string, loads: JsonDecoder)
    requires !Contains(content, ContentDelimiter)
    ensures ParseRecord(content, loads) == Document(Strip(content), UnknownMetadata)
  {
  }

  /** Success case: with a delimiter at the leftmost position `i` and a metadata part
      that decodes to `m`, the metadata is `m` and the text is the stripped part
      between the first delimiter and the next one (or the end of the file). */
  lemma ParseSucceeds(content: string, loads: JsonDecoder, i: nat, m: Metadata)
    requires OccursAt(content, ContentDelimiter, i)
    requires forall k: nat :: k < i ==> !OccursAt(content, ContentDelimiter, k)
    requires loads(Strip(RemoveAll(content[..i], MetadataDelimiter))) == Some(m)
    ensures ParseRecord(content, loads) == Document(Strip(SecondPart(content, i + |ContentDelimiter|)), m)
  {
    IndexOfLeftmost(content, ContentDelimiter, i);
    ParseAt(content, loads, i);
  }

  /** `ParseRecord` once the position of the first delimiter is known. */
  lemma ParseAt(content: string, loads: JsonDecoder, i: nat)
    requires IndexOfFrom(content, ContentDelimiter, 0) == Some(i)
    ensures var part := Strip(RemoveAll(content[..i], MetadataDelimiter));
      ParseRecord(content, loads) == match loads(part)
        case None => Document(Strip(content), UnknownMetadata)
        case Some(m) => Document(Strip(SecondPart(content, i + |ContentDelimiter|)), m)
  {
  }

  /** Failure of the JSON decoder also falls back to the whole file. */
  lemma FallbackOnBadJson(content: string, loads: JsonDecoder, i: nat)
    requires OccursAt(content, ContentDelimiter, i)
    requires forall k: nat :: k < i ==> !OccursAt(content, ContentDelimiter, k)
    requires loads(Strip(RemoveAll(content[..i], MetadataDelimiter))) == None
    ensures ParseRecord(content, loads) == Document(Strip(content), UnknownMetadata)
  {
    IndexOfLeftmost(content, ContentDelimiter, i);
    ParseAt(content, loads, i);
  }

  // ---------------------------------------------------------------------------
  // Round trip: what the crawler writes, the indexer reads back.

  /** The parser recovers the metadata and the stripped text from the writer's
      layout, provided the JSON dump mentions neither delimiter, the text does
      not contain the content delimiter, and the decoder inverts the dump. */
  lemma RoundTrip(json: string, text: string, loads: JsonDecoder, m: Metadata)
    requires !Contains(json, ContentDelimiter) && !Contains(json, MetadataDelimiter)
    requires !Contains(text, ContentDelimiter)
    requires loads(Strip(json)) == Some(m)
    ensures ParseRecord(Layout(json, text), loads) == Document(Strip(text), m)
  {
    var content := Layout(json, text);
    var head := MetadataDelimiter + "\n" + json + "\n\n";
    assert content == head + (ContentDelimiter + "\n\n" + text);
    FirstDelimiter(json, text);
    assert |head| == |MetadataDelimiter| + |json| + 3;
    ParseAt(content, loads, |head|);
    MetadataPart(json);
    assert content[..|head|] == head;
    ContentPart(head, text);
  }

  /** The leftmost content delimiter of the layout is the one after the metadata. */
  lemma FirstDelimiter(json: string, text: string)
    requires !Contains(json, ContentDelimiter)
    ensures IndexOfFrom(Layout(json, text), ContentDelimiter, 0) == Some(|MetadataDelimiter| + |json| + 3)
  {
    var content := Layout(json, text);
    var i := |MetadataDelimiter| + |json| + 3;
    var rest := "\n" + ContentDelimiter + "\n\n" + text;
    assert content == MetadataDelimiter + ['\n'] + (json + ['\n'] + rest);
    assert content[i..i + |ContentDelimiter|] == ContentDelimiter;
    forall k: nat | k < i
      ensures !OccursAt(content, ContentDelimiter, k)
    {
      NotInHead(json, rest, k);
    }
    IndexOfLeftmost(content, ContentDelimiter, i);
  }

  /** No content delimiter starts inside the metadata header, the JSON or the newline after it. */
  lemma NotInHead(json: string, rest: string, k: nat)
    requires !Contains(json, ContentDelimiter)
    requires |rest| > 0 && rest[0] == '\n'
    requires k < |MetadataDelimiter| + |json| + 3
    ensures !OccursAt(MetadataDelimiter + ['\n'] + (json + ['\n'] + rest), ContentDelimiter, k)
  {
    var a := MetadataDelimiter;
    var b := json + ['\n'] + rest;
    OccursAcross(a, '\n', b, ContentDelimiter, k);
    MetadataDelimiterLacksContent(k);
    if k > |a| {
      OccursAcross(json, '\n', rest, ContentDelimiter, k - |a| - 1);
    }
    ContainsIff(json, ContentDelimiter);
  }

  lemma MetadataDelimiterLacksContent(k: nat)
    ensures !OccursAt(MetadataDelimiter, ContentDelimiter, k)
  {
    if k + |ContentDelimiter| <= |MetadataDelimiter| {
      assert MetadataDelimiter[k..k + |ContentDelimiter|][6] != ContentDelimiter[6];
    }
  }

  /** The metadata part loses its header and its padding. */
  lemma MetadataPart(json: string)
    requires !Contains(json, MetadataDelimiter)
    ensures Strip(RemoveAll(MetadataDelimiter + "\n" + json + "\n\n", MetadataDelimiter)) == Strip(json)
  {
    NoDelimiterAroundNewlines(json);
    assert AllSpace("\n") && AllSpace("\n\n");
    RemoveLeadingStrip(MetadataDelimiter, "\n", json, "\n\n");
  }

  /** The content part runs from the delimiter to the end of the file. */
  lemma ContentPart(head: string, text: string)
    requires !Contains(text, ContentDelimiter)
    ensures var content := head + (ContentDelimiter + "\n\n" + text);
      Strip(SecondPart(content, |head| + |ContentDelimiter|)) == Strip(text)
  {
    var content := head + (ContentDelimiter + "\n\n" + text);
    var after := |head| + |ContentDelimiter|;
    assert content[after..] == "\n\n" + text;
    NoDelimiterAfterNewlines(text);
    ContainsIff("\n\n" + text, ContentDelimiter);
    match IndexOfFrom(content, ContentDelimiter, after)
    case Some(j) =>
      OccursInSuffix(content, ContentDelimiter, after, j);
      assert false;
    case None =>
      assert SecondPart(content, after) == "\n\n" + text;
      StripPadded("\n\n", text, "");
      assert "\n\n" + text + "" == "\n\n" + text;
  }

  lemma NoDelimiterAroundNewlines(json: string)
    requires !Contains(json, MetadataDelimiter)
    ensures !Contains("\n" + json + "\n\n", MetadataDelimiter)
  {
    var pat := MetadataDelimiter;
    assert '\n' !in pat;
    EmptyContainsNone(pat);
    NoOccurrenceAcross([], '\n', json, pat);
    NoOccurrenceAcross([] + ['\n'] + json, '\n', [], pat);
    NoOccurrenceAcross([] + ['\n'] + json + ['\n'] + [], '\n', [], pat);
    assert [] + ['\n'] + json + ['\n'] + [] + ['\n'] + [] == "\n" + json + "\n\n";
  }

  lemma NoDelimiterAfterNewlines(text: string)
    requires !Contains(text, ContentDelimiter)
    ensures !Contains("\n\n" + text, ContentDelimiter)
  {
    var pat := ContentDelimiter;
    assert '\n' !in pat;
    EmptyContainsNone(pat);
    NoOccurrenceAcross([], '\n', text, pat);
    NoOccurrenceAcross([], '\n', [] + ['\n'] + text, pat);
    assert [] + ['\n'] + ([] + ['\n'] + text) == "\n\n" + text;
  }

  // ---------------------------------------------------------------------------
  // Reading a file: `open(path, "r")` uses universal newlines, so `f.read()`
  // turns every `\r\n` and every lone `\r` of the file into `\n`.

  function ReadText(raw: string): (r: string)
    ensures |r| <= |raw|
    ensures '\r' !in r
    ensures '\r' !in raw ==> r == raw
    decreases |raw|
  {
    if raw == [] then []
    else if raw[0] != '\r' then
      var rest := ReadText(raw[1..]);
      assert '\r' !in raw ==> '\r' !in raw[1..];
      [raw[0]] + rest
    else if |raw| > 1 && raw[1] == '\n' then "\n" + ReadText(raw[2..])
    else "\n" + ReadText(raw[1..])
  }

  /** A prefix without carriage returns is read as it is, whatever follows it. */
  lemma ReadTextAppend(a: string, b: string)
    requires '\r' !in a
    ensures ReadText(a + b) == a + ReadText(b)
  {
    assert a != [] ==> a[|a| - 1] in a;
    ReadSplit(a, b);
  }

  /** Reading distributes over a split that does not cut a `\r\n` pair in two. */
  lemma {:induction false} ReadSplit(a: string, b: string)
    requires a == [] || a[|a| - 1] != '\r' || b == [] || b[0] != '\n'
    ensures ReadText(a + b) == ReadText(a) + ReadText(b)
    decreases |a|
  {
    if a == [] {
      assert a + b == b && ReadText(a) == [];
    } else {
      var c, d := ReadStepAppend(a, b);
      var tail := a[d..];
      ReadSplit(tail, b);
      ReadAssoc(c, ReadText(tail), ReadText(b));
    }
  }

  /** Regrouping after the first character read, stated apart so that the
      solver meets it without the definition of `ReadText` in scope. */
  lemma ReadAssoc(c: char, x: string, y: string)
    ensures [c] + (x + y) == ([c] + x) + y
  {
  }

  /** The first step of reading `a + b` is the first step of reading `a`, when
      the split does not cut a `\r\n` pair. */
  lemma ReadStepAppend(a: string, b: string) returns (c: char, d: nat)
    requires a != [] && (a[|a| - 1] != '\r' || b == [] || b[0] != '\n')
    ensures 1 <= d <= |a| && (d < |a| ==> a[|a| - 1] == a[d..][|a| - d - 1])
    ensures ReadText(a) == [c] + ReadText(a[d..])
    ensures ReadText(a + b) == [c] + ReadText(a[d..] + b)
  {
    var ab := a + b;
    c, d := ReadStep(a);
    var c', d' := ReadStep(ab);
    assert ab[0] == a[0];
    assert |a| > 1 ==> ab[1] == a[1];
    assert |a| == 1 && |ab| > 1 ==> ab[1] == b[0];
    assert c' == c && d' == d;
    assert ab[d..] == a[d..] + b;
  }

  /** The first character read and how many characters of the file it consumes. */
  lemma ReadStep(raw: string) returns (c: char, d: nat)
    requires raw != []
    ensures c == if raw[0] == '\r' then '\n' else raw[0]
    ensures d == if raw[0] == '\r' && |raw| > 1 && raw[1] == '\n' then 2 else 1
    ensures d <= |raw| && ReadText(raw) == [c] + ReadText(raw[d..])
  {
    c := if raw[0] == '\r' then '\n' else raw[0];
    d := if raw[0] == '\r' && |raw| > 1 && raw[1] == '\n' then 2 else 1;
  }

  /** A `\r\n` pair is read as one `\n`. */
  lemma ReadCrLf(a: string, b: string)
    ensures ReadText(a + "\r\n" + b) == ReadText(a) + "\n" + ReadText(b)
  {
    var c := "\r\n" + b;
    assert a + "\r\n" + b == a + c;
    ReadSplit(a, c);
    assert c[0] == '\r' && c[1] == '\n' && c[2..] == b;
  }

  /** A `\r` not followed by `\n` is read as `\n`. */
  lemma ReadLoneCr(a: string, b: string)
    requires b == [] || b[0] != '\n'
    ensures ReadText(a + "\r" + b) == ReadText(a) + "\n" + ReadText(b)
  {
    var c := "\r" + b;
    assert a + "\r" + b == a + c;
    ReadSplit(a, c);
    assert c[0] == '\r' && c[1..] == b;
  }

  /** A newline-free prefix of what is read was already a prefix of the file. */
  lemma {:induction false} ReadPrefix(raw: string, q: string)
    requires '\n' !in q && |q| <= |ReadText(raw)| && ReadText(raw)[..|q|] == q
    ensures |q| <= |raw| && raw[..|q|] == q
    decreases |q|
  {
    if q != [] {
      assert ReadText(raw)[0] == q[0];
      assert ReadText(raw)[0] == if raw[0] == '\r' then '\n' else raw[0];
      assert raw[0] != '\r';
      var rest := ReadText(raw[1..]);
      assert ReadText(raw) == [raw[0]] + rest;
      assert rest[..|q| - 1] == q[1..];
      ReadPrefix(raw[1..], q[1..]);
      assert raw[..|q|] == [raw[0]] + raw[1..][..|q| - 1];
    }
  }

  /** An occurrence of a newline-free pattern in what is read is an occurrence in the file. */
  lemma {:induction false} ReadOccurrence(raw: string, pat: string, k: nat)
    requires '\n' !in pat && OccursAt(ReadText(raw), pat, k)
    ensures Contains(raw, pat)
    decreases |raw|
  {
    if k == 0 {
      ContainsIff(raw, pat);
      ReadPrefix(raw, pat);
      assert OccursAt(raw, pat, 0);
    } else {
      assert raw != [];
      var d := ReadHead(raw);
      OccursInSuffix(ReadText(raw), pat, 1, k);
      ReadOccurrence(raw[d..], pat, k - 1);
      ContainsInSuffix(raw, pat, d);
    }
  }

  /** Reading consumes one or two characters of the file for its first character. */
  lemma ReadHead(raw: string) returns (d: nat)
    requires raw != []
    ensures 1 <= d <= |raw| && ReadText(raw)[1..] == ReadText(raw[d..])
  {
    d := if raw[0] == '\r' && |raw| > 1 && raw[1] == '\n' then 2 else 1;
  }

  /** One file of `load_documents`: read in text mode, then parsed. */
  function ReadRecord(raw: string, loads: JsonDecoder): Document {
    ParseRecord(ReadText(raw), loads)
  }

  /** Reading creates no occurrence of a newline-free pattern. */
  lemma ReadKeepsAbsent(raw: string, pat: string)
    requires '\n' !in pat && !Contains(raw, pat)
    ensures !Contains(ReadText(raw), pat)
  {
    ContainsIff(ReadText(raw), pat);
    if exists k: nat :: OccursAt(ReadText(raw), pat, k) {
      var k: nat :| OccursAt(ReadText(raw), pat, k);
      ReadOccurrence(raw, pat, k);
      assert false;
    }
  }

  /** Reading the writer's layout translates the line endings of the text only,
      as long as the JSON dump contains no carriage return. */
  lemma ReadLayout(json: string, text: string)
    requires '\r' !in json
    ensures ReadText(Layout(json, text)) == Layout(json, ReadText(text))
  {
    var head := MetadataDelimiter + "\n" + json + "\n\n" + ContentDelimiter + "\n\n";
    DelimitersOneLine();
    assert '\r' !in head;
    ReadTextAppend(head, text);
  }

  /** What the crawler writes, the indexer reads back: the saved metadata and
      the stripped text with its line endings translated. */
  lemma ReadBack(json: string, text: string, loads: JsonDecoder, m: Metadata)
    requires !Contains(json, ContentDelimiter) && !Contains(json, MetadataDelimiter) && '\r' !in json
    requires !Contains(text, ContentDelimiter)
    requires loads(Strip(json)) == Some(m)
    ensures ReadRecord(Layout(json, text), loads) == Document(Strip(ReadText(text)), m)
  {
    var t := ReadText(text);
    ReadLayout(json, text);
    DelimitersOneLine();
    ReadKeepsAbsent(text, ContentDelimiter);
    RoundTrip(json, t, loads, m);
  }

  /** Neither delimiter contains a line break. */
  lemma DelimitersOneLine()
    ensures '\n' !in ContentDelimiter && '\r' !in ContentDelimiter && '\r' !in MetadataDelimiter
  {
  }

  // ---------------------------------------------------------------------------
  // load_documents: read every `.txt` file in the data directory.

  /** The documents of the `.txt` files, in directory-listing order. */
  function LoadedDocuments(files: seq<(string, string)>, loads: JsonDecoder): seq<Document> {
    if files == [] then []
    else
      var init := LoadedDocuments(files[..|files| - 1], loads);
      var (name, content) := files[|files| - 1];
      if EndsWith(name, ".txt") then init + [ReadRecord(content, loads)] else init
  }

  /** `load_documents` over a directory listing given as `(filename, content)` pairs. */
  method LoadDocuments(files: seq<(string, string)>, loads: JsonDecoder) returns (documents: seq<Document>)
    ensures documents == LoadedDocuments(files, loads)
  {
    documents := [];
    for n := 0 to |files|
      invariant documents == LoadedDocuments(files[..n], loads)
    {
      assert files[..n + 1][..n] == files[..n];
      var (filename, raw) := files[n];
      if !EndsWith(filename, ".txt") {
        continue;
      }
      var content := ReadText(raw);
      documents := documents + [ParseRecord(content, loads)];
    }
    assert files[..|files|] == files;
  }

  /** Only `.txt` files are read, each exactly once, in listing order. */
  lemma {:induction false} LoadedDocumentsAre(files: seq<(string, string)>, loads: JsonDecoder)
    ensures var docs, txt := LoadedDocuments(files, loads), TxtFiles(files);
      |docs| == |txt| && forall k :: 0 <= k < |txt| ==> docs[k] == ReadRecord(txt[k].1, loads)
  {
    if files != [] {
      var init, f := files[..|files| - 1], files[|files| - 1];
      LoadedDocumentsAre(init, loads);
      var docs, txt := LoadedDocuments(init, loads), TxtFiles(init);
      assert files == init + [f];
      TxtFilesAppend(init, [f]);
      TxtFilesSingle(f);
      if EndsWith(f.0, ".txt") {
        assert LoadedDocuments(files, loads) == docs + [ReadRecord(f.1, loads)];
        assert TxtFiles(files) == txt + [f];
      } else {
        assert LoadedDocuments(files, loads) == docs;
        assert TxtFiles(files) == txt + [];
      }
    }
  }

  /** Selecting distributes over concatenation of listings, so order is kept. */
  lemma {:induction false} TxtFilesAppend(a: seq<(string, string)>, b: seq<(string, string)>)
    ensures TxtFiles(a + b) == TxtFiles(a) + TxtFiles(b)
    decreases |b|
  {
    if b == [] {
      assert a + b == a;
    } else {
      var b' := b[..|b| - 1];
      assert (a + b)[..|a + b| - 1] == a + b';
      assert (a + b)[|a + b| - 1] == b[|b| - 1];
      TxtFilesAppend(a, b');
    }
  }

  /** One entry is selected exactly when its name ends in `.txt`. */
  lemma TxtFilesSingle(f: (string, string))
    ensures TxtFiles([f]) == if EndsWith(f.0, ".txt") then [f] else []
  {
    assert [f][..0] == [];
  }

  /** The `.txt` entries of a listing, in order. */
  function TxtFiles(files: seq<(string, string)>): (r: seq<(string, string)>)
    ensures forall k :: 0 <= k < |r| ==> EndsWith(r[k].0, ".txt") && r[k] in files
    ensures forall f :: f in files && EndsWith(f.0, ".txt") ==> f in r
  {
    if files == [] then []
    else
      var init := TxtFiles(files[..|files| - 1]);
      assert forall f :: f in files[..|files| - 1] ==> f in files;
      assert forall f :: f in files ==> f in files[..|files| - 1] || f == files[|files| - 1];
      if EndsWith(files[|files| - 1].0, ".txt") then init + [files[|files| - 1]] else init
  }
}
