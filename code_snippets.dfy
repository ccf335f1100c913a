/**
 * The built-in snippet catalog: the bundled text resource CodeSnippets.js and
 * how the extension cuts it into named snippets. The resource is a header
 * followed by records; every record starts on a `// MARK: ` line after a blank
 * line, holds a name ended by ".\n", and then the snippet's code.
 */
module CodeSnippets {
  import opened Optional
  import opened TextSplit

  datatype CodeSnippet = CodeSnippet(name: string, code: string)

  /** Separates the records of the resource; the text before the first one is the header. */
  const RecordMarker: string := "\n\n// MARK: "

  /** Ends a record's name; the code follows it. */
  const NameTerminator: string := ".\n"

  /**
   * One record read as a snippet: the name is the text before the first ".\n"
   * and the code the text after it, up to the next ".\n" or the end (that is,
   * components 0 and 1 of the record split on ".\n"; see SnippetOfComponents).
   * `None` stands for the out-of-range trap on component 1.
   */
  function SnippetOf(record: string): (r: Option<CodeSnippet>)
    ensures r.None? <==> IndexOf(record, NameTerminator).None?
    ensures r.Some? ==>
      && IndexOf(record, NameTerminator) == Some(|r.value.name|)
      && record[..|r.value.name|] == r.value.name
  {
    match IndexOf(record, NameTerminator)
    case None => None
    case Some(i) => Some(CodeSnippet(record[..i], UpTo(record[i + |NameTerminator|..], NameTerminator)))
  }

  /** The reading is exactly the source's: components 0 and 1, trapping when there is no component 1. */
  lemma SnippetOfComponents(record: string)
    ensures var parts := Components(record, NameTerminator);
      SnippetOf(record) == if |parts| < 2 then None else Some(CodeSnippet(parts[0], parts[1]))
  {
    match IndexOf(record, NameTerminator)
    case None =>
    case Some(i) =>
      ComponentsUnfold(record, NameTerminator, i);
      UpToFirstComponent(record[i + |NameTerminator|..], NameTerminator);
  }

  /** A record fails to read exactly when it holds no ".\n". */
  lemma SnippetOfFails(record: string)
    ensures SnippetOf(record).None? <==> Free(record, NameTerminator)
  {
    if Free(record, NameTerminator) {
      FreeIndexOf(record, NameTerminator);
    } else {
      IndexOfFirst(record, NameTerminator);
    }
  }

  /**
   * A snippet's code is the text after the first ".\n" of its record (where
   * SnippetOf's contract puts the end of the name), up to the second ".\n" or
   * to the end; so it holds no ".\n" itself.
   */
  lemma SnippetOfSplitsAtTerminators(record: string, sn: CodeSnippet)
    requires SnippetOf(record) == Some(sn)
    ensures |sn.name| + |NameTerminator| + |sn.code| <= |record|
    ensures record[|sn.name| + |NameTerminator|..|sn.name| + |NameTerminator| + |sn.code|] == sn.code
    ensures Free(sn.code, NameTerminator)
    ensures var stop := |sn.name| + |NameTerminator| + |sn.code|;
      stop == |record| || OccursAt(record, NameTerminator, stop)
  {
    var start := |sn.name| + |NameTerminator|;
    assert sn.code == UpTo(record[start..], NameTerminator);
    UpToFirstComponent(record[start..], NameTerminator);
    TailComponent(record, NameTerminator, start);
  }

  /** Whatever follows a second ".\n" in a record is dropped. */
  lemma SnippetDropsTrailer(name: string, code: string, trailer: string)
    requires Unambiguous(name, NameTerminator) && Unambiguous(code, NameTerminator)
    ensures SnippetOf(name + NameTerminator + code + NameTerminator + trailer)
         == Some(CodeSnippet(name, code))
  {
    var T := NameTerminator;
    assert name + T + code + T + trailer == name + T + (code + T + trailer);
    IndexAfterUnambiguous(name, code + T + trailer, T);
    IndexAfterUnambiguous(code, trailer, T);
  }

  /** The text of the record that lists `sn`. */
  function Record(sn: CodeSnippet): string
  {
    sn.name + NameTerminator + sn.code
  }

  /** A snippet whose record reads back as itself: the name is unambiguous before ".\n", the code holds none. */
  predicate ReadableSnippet(sn: CodeSnippet)
  {
    Unambiguous(sn.name, NameTerminator) && Free(sn.code, NameTerminator)
  }

  /** A readable snippet's record reads back as the snippet. */
  lemma RecordRoundTrip(sn: CodeSnippet)
    requires ReadableSnippet(sn)
    ensures SnippetOf(Record(sn)) == Some(sn)
  {
    IndexAfterUnambiguous(sn.name, sn.code, NameTerminator);
    FreeIndexOf(sn.code, NameTerminator);
  }

  function Records(snippets: seq<CodeSnippet>): (r: seq<string>)
    ensures |r| == |snippets|
    ensures forall k | 0 <= k < |r| :: r[k] == Record(snippets[k])
  {
    seq(|snippets|, k requires 0 <= k < |snippets| => Record(snippets[k]))
  }

  /** A resource with the given header and snippets, records separated by the marker. */
  function Render(header: string, snippets: seq<CodeSnippet>): string
  {
    Join([header] + Records(snippets), RecordMarker)
  }

  /**
   * No part of the resource hides a separator: the header and the records
   * are separable by the marker, and every snippet is readable.
   */
  predicate WellFormedCatalog(header: string, snippets: seq<CodeSnippet>)
  {
    && Separable([header] + Records(snippets), RecordMarker)
    && forall k | 0 <= k < |snippets| :: ReadableSnippet(snippets[k])
  }

  /**
   * The outcome of the parse loop: the snippets appended, in order, and the
   * enumeration index of the record at which it trapped, if it did.
   */
  datatype Parse = Parse(snippets: seq<CodeSnippet>, trap: Option<nat>)

  /** The loop body applied to `segments[index..]`, stopping at the first trap. */
  function ParseFrom(segments: seq<string>, index: nat): (r: Parse)
    requires index <= |segments|
    ensures r.trap.None? ==> |r.snippets| == |segments| - index
    ensures r.trap.Some? ==> index <= r.trap.value < |segments| && |r.snippets| == r.trap.value - index
    decreases |segments| - index
  {
    if index == |segments| then Parse([], None)
    else
      match SnippetOf(segments[index])
      case None => Parse([], Some(index))
      case Some(sn) =>
        var rest := ParseFrom(segments, index + 1);
        Parse([sn] + rest.snippets, rest.trap)
  }

  /** One turn of the loop: a record that reads goes in front of the rest, one that does not traps here. */
  lemma ParseFromStep(segments: seq<string>, index: nat)
    requires index < |segments|
    ensures SnippetOf(segments[index]).None? ==> ParseFrom(segments, index) == Parse([], Some(index))
    ensures SnippetOf(segments[index]).Some? ==>
      ParseFrom(segments, index)
      == Parse([SnippetOf(segments[index]).value] + ParseFrom(segments, index + 1).snippets,
               ParseFrom(segments, index + 1).trap)
  {
  }

  /**
   * The state of the parse loop before record `index`: the snippets `done`
   * appended so far, followed by the parse from `index` on, make up `whole`.
   */
  predicate ResumesAt(whole: Parse, done: seq<CodeSnippet>, segments: seq<string>, index: nat)
    requires index <= |segments|
  {
    whole == Parse(done + ParseFrom(segments, index).snippets, ParseFrom(segments, index).trap)
  }

  /**
   * One turn of the loop: a record with fewer than two components traps with
   * `done` as the result, and one with two appends components 0 and 1 and
   * resumes at the next record.
   */
  lemma ParseFromComponents(whole: Parse, done: seq<CodeSnippet>, segments: seq<string>, index: nat)
    requires index < |segments| && ResumesAt(whole, done, segments, index)
    ensures var parts := Components(segments[index], NameTerminator);
      && (|parts| < 2 ==> whole == Parse(done, Some(index)))
      && (2 <= |parts| ==> ResumesAt(whole, done + [CodeSnippet(parts[0], parts[1])], segments, index + 1))
  {
    var parts := Components(segments[index], NameTerminator);
    SnippetOfComponents(segments[index]);
    ParseFromStep(segments, index);
    var here, next := ParseFrom(segments, index), ParseFrom(segments, index + 1);
    if |parts| < 2 {
      assert here == Parse([], Some(index));
      assert done + [] == done;
    } else {
      var sn := CodeSnippet(parts[0], parts[1]);
      assert here.snippets == [sn] + next.snippets;
      assert done + ([sn] + next.snippets) == (done + [sn]) + next.snippets;
    }
  }

  /** Snippet `k` of the parse is what record `index + k` reads as. */
  lemma ParseFromReads(segments: seq<string>, index: nat)
    requires index <= |segments|
    ensures forall k | 0 <= k < |ParseFrom(segments, index).snippets| ::
      SnippetOf(segments[index + k]) == Some(ParseFrom(segments, index).snippets[k])
  {
    ParseFromReadsAt(segments, index);
    var r := ParseFrom(segments, index);
    forall k | 0 <= k < |r.snippets| ensures SnippetOf(segments[index + k]) == Some(r.snippets[k]) {
      assert r.snippets[(index + k) - index] == r.snippets[k];
    }
  }

  /** Record `j`, from `index` on, reads as snippet `j - index` of the parse. */
  lemma {:induction false} ParseFromReadsAt(segments: seq<string>, index: nat)
    requires index <= |segments|
    ensures forall j | index <= j < index + |ParseFrom(segments, index).snippets| ::
      SnippetOf(segments[j]) == Some(ParseFrom(segments, index).snippets[j - index])
    decreases |segments| - index
  {
    if index < |segments| && SnippetOf(segments[index]).Some? {
      ParseFromStep(segments, index);
      ParseFromReadsAt(segments, index + 1);
      var r, rest := ParseFrom(segments, index), ParseFrom(segments, index + 1);
      assert r.snippets == [SnippetOf(segments[index]).value] + rest.snippets;
      forall j | index < j < index + |r.snippets| ensures SnippetOf(segments[j]) == Some(r.snippets[j - index]) {
        assert r.snippets[j - index] == rest.snippets[j - (index + 1)];
      }
    }
  }

  /** The parse traps exactly when some record from `index` on does not read, and then at the first one. */
  lemma {:induction false} ParseFromTraps(segments: seq<string>, index: nat)
    requires index <= |segments|
    ensures var r := ParseFrom(segments, index);
      && (r.trap.None? <==> forall k | index <= k < |segments| :: SnippetOf(segments[k]).Some?)
      && (r.trap.Some? ==> SnippetOf(segments[r.trap.value]).None?)
    decreases |segments| - index
  {
    if index < |segments| {
      ParseFromStep(segments, index);
      if SnippetOf(segments[index]).Some? {
        ParseFromTraps(segments, index + 1);
        assert ParseFrom(segments, index).trap == ParseFrom(segments, index + 1).trap;
      }
    }
  }

  /**
   * `loadCodeSnippets` on the resource text: split on the record marker, skip
   * component 0 (the header), read every other component as a snippet.
   */
  function ParseCatalog(content: string): (r: Parse)
    ensures |r.snippets| < |Components(content, RecordMarker)|
    ensures r.trap.None? ==> |r.snippets| == |Components(content, RecordMarker)| - 1
    ensures r.trap.Some? ==>
      1 <= r.trap.value < |Components(content, RecordMarker)| && |r.snippets| == r.trap.value - 1
  {
    ParseFrom(Components(content, RecordMarker), 1)
  }

  /** The header never becomes a snippet: snippet `k` is what segment `k + 1` reads as. */
  lemma ParseCatalogReads(content: string)
    ensures forall k | 0 <= k < |ParseCatalog(content).snippets| ::
      SnippetOf(Components(content, RecordMarker)[k + 1]) == Some(ParseCatalog(content).snippets[k])
  {
    var segments, r := Components(content, RecordMarker), ParseCatalog(content);
    ParseFromReads(segments, 1);
    forall k | 0 <= k < |r.snippets| ensures SnippetOf(segments[k + 1]) == Some(r.snippets[k]) {
      assert SnippetOf(segments[1 + k]) == Some(r.snippets[k]);
    }
  }

  /**
   * The parse traps exactly when some segment after the header holds no
   * ".\n", and then at the first such segment.
   */
  lemma ParseCatalogTraps(content: string)
    ensures var segments, r := Components(content, RecordMarker), ParseCatalog(content);
      && (r.trap.None? <==> forall k | 1 <= k < |segments| :: !Free(segments[k], NameTerminator))
      && (r.trap.Some? ==>
            && Free(segments[r.trap.value], NameTerminator)
            && forall k | 1 <= k < r.trap.value :: !Free(segments[k], NameTerminator))
  {
    var segments, r := Components(content, RecordMarker), ParseCatalog(content);
    ParseFromTraps(segments, 1);
    ParseFromReadsAt(segments, 1);
    forall k | 1 <= k < |segments| ensures SnippetOf(segments[k]).Some? <==> !Free(segments[k], NameTerminator) {
      SnippetOfFails(segments[k]);
    }
  }

  /** When every record from `index` on reads as a snippet, the parse is those snippets, untrapped. */
  lemma ParseFromAllRecords(segments: seq<string>, index: nat, snippets: seq<CodeSnippet>)
    requires index <= |segments| && |segments| - index == |snippets|
    requires forall k | 0 <= k < |snippets| :: SnippetOf(segments[index + k]) == Some(snippets[k])
    ensures ParseFrom(segments, index) == Parse(snippets, None)
  {
    var r := ParseFrom(segments, index);
    ParseFromTraps(segments, index);
    ParseFromReads(segments, index);
    forall k | index <= k < |segments| ensures SnippetOf(segments[k]).Some? {
      assert SnippetOf(segments[index + (k - index)]) == Some(snippets[k - index]);
    }
    assert r.snippets == snippets;
  }

  /** Splitting a well-formed resource on the marker gives back the header and the records. */
  lemma RenderSplits(header: string, snippets: seq<CodeSnippet>)
    requires Separable([header] + Records(snippets), RecordMarker)
    ensures ParseCatalog(Render(header, snippets)) == ParseFrom([header] + Records(snippets), 1)
  {
    ComponentsJoin([header] + Records(snippets), RecordMarker);
  }

  /** Every record of a well-formed resource reads back as its snippet. */
  lemma RecordsRoundTrip(header: string, snippets: seq<CodeSnippet>)
    requires forall k | 0 <= k < |snippets| :: ReadableSnippet(snippets[k])
    ensures ParseFrom([header] + Records(snippets), 1) == Parse(snippets, None)
  {
    RecordsRead(header, snippets);
    ParseFromAllRecords([header] + Records(snippets), 1, snippets);
  }

  lemma RecordsRead(header: string, snippets: seq<CodeSnippet>)
    requires forall k | 0 <= k < |snippets| :: ReadableSnippet(snippets[k])
    ensures forall k | 0 <= k < |snippets| :: SnippetOf(([header] + Records(snippets))[1 + k]) == Some(snippets[k])
  {
    forall k | 0 <= k < |snippets| ensures SnippetOf(([header] + Records(snippets))[1 + k]) == Some(snippets[k]) {
      assert ([header] + Records(snippets))[1 + k] == Record(snippets[k]);
      RecordRoundTrip(snippets[k]);
    }
  }

  /** Parsing a well-formed rendered resource gives back exactly its snippets. */
  lemma ParseRender(header: string, snippets: seq<CodeSnippet>)
    requires WellFormedCatalog(header, snippets)
    ensures ParseCatalog(Render(header, snippets)) == Parse(snippets, None)
  {
    RenderSplits(header, snippets);
    RecordsRoundTrip(header, snippets);
  }

  /**
   * A snippet that can sit in a resource unharmed: neither name nor code
   * holds a ':' (the marker's tenth character), the name is a single line and
   * the code holds no ".\n".
   */
  predicate PlainSnippet(sn: CodeSnippet)
  {
    && Lacks(sn.name, ':') && Lacks(sn.code, ':')
    && Lacks(sn.name, '\n') && Free(sn.code, NameTerminator)
  }

  /** A plain snippet's record is separable by the marker, and the snippet is readable. */
  lemma PlainRecord(sn: CodeSnippet)
    requires PlainSnippet(sn)
    ensures Unambiguous(Record(sn), RecordMarker) && Free(Record(sn), RecordMarker)
    ensures ReadableSnippet(sn)
  {
    assert Lacks(RecordMarker[..9], ':') && Lacks(NameTerminator[..1], '\n');
    assert Lacks(Record(sn), ':');
    UnambiguousByChar(Record(sn), RecordMarker, 9);
    FreeByChar(Record(sn), RecordMarker, 9);
    UnambiguousByChar(sn.name, NameTerminator, 1);
  }

  /** A single-line header followed by plain snippets makes a well-formed resource. */
  lemma PlainCatalogWellFormed(header: string, snippets: seq<CodeSnippet>)
    requires Lacks(header, '\n')
    requires forall sn | sn in snippets :: PlainSnippet(sn)
    ensures WellFormedCatalog(header, snippets)
  {
    var M := RecordMarker;
    var texts := [header] + Records(snippets);
    assert Lacks(M[..0], '\n');
    UnambiguousByChar(header, M, 0);
    FreeByChar(header, M, 0);
    forall k | 0 <= k < |texts|
      ensures Unambiguous(texts[k], M) && Free(texts[k], M)
    {
      if k > 0 {
        assert snippets[k - 1] in snippets;
        PlainRecord(snippets[k - 1]);
      }
    }
    forall k | 0 <= k < |snippets| ensures ReadableSnippet(snippets[k]) {
      assert snippets[k] in snippets;
      PlainRecord(snippets[k]);
    }
  }

  /** The header line of CodeSnippets.js, component 0 of the split. */
  const BundledHeader: string := "// MARK: Code snippets."

  // The snippets of CodeSnippets.js, in file order; codes are written line by line.
  const AlertSnippet := CodeSnippet("window.alert()", "alert(message);")
  const ConfirmSnippet := CodeSnippet("window.confirm()", "if (confirm(message)) {\n" + "    // code\n" + "}")
  const PromptSnippet := CodeSnippet("window.prompt()", "let input = prompt(message, defaultValue);")
  const ForLoopSnippet := CodeSnippet("for loop", "for (let i = 0; i < 8; i++) {\n" + "    // code\n" + "}")
  const IfElseSnippet :=
    CodeSnippet("if...else", "if (true) {\n" + "    // code\n" + "} else {\n" + "    // code\n" + "}")
  const QuerySelectorSnippet := CodeSnippet("Document.querySelector()", "document.querySelector(selectors);")
  const QuerySelectorAllSnippet :=
    CodeSnippet("Document.querySelectorAll()", "document.querySelectorAll(selectors);")
  /** The file's final newline stays with the last code. */
  const GetElementByIdSnippet := CodeSnippet("Document.getElementById()", "document.getElementById(id);" + "\n")

  const BundledSnippets: seq<CodeSnippet> := [
    AlertSnippet, ConfirmSnippet, PromptSnippet, ForLoopSnippet, IfElseSnippet,
    QuerySelectorSnippet, QuerySelectorAllSnippet, GetElementByIdSnippet
  ]

  /**
   * The text of CodeSnippets.js: the header, then each snippet as a blank
   * line, a `// MARK: ` line holding the name and a final '.', and the code.
   */
  const CodeSnippetsFile: string := Render(BundledHeader, BundledSnippets)

  /** `s` holds neither `c` nor `d`. */
  predicate LacksEither(s: string, c: char, d: char)
  {
    forall i | 0 <= i < |s| :: s[i] != c && s[i] != d
  }

  lemma LacksEitherAppend(a: string, b: string, c: char, d: char)
    requires LacksEither(a, c, d) && LacksEither(b, c, d)
    ensures LacksEither(a + b, c, d)
  {
    forall i | |a| <= i < |a + b| ensures (a + b)[i] != c && (a + b)[i] != d {
      assert (a + b)[i] == b[i - |a|];
    }
  }

  /** A snippet is plain when its texts lack ':', its name lacks '\n', and its code lacks one character of ".\n". */
  lemma PlainFrom(sn: CodeSnippet, m: nat)
    requires m < |NameTerminator|
    requires LacksEither(sn.name, ':', '\n') && LacksEither(sn.code, ':', NameTerminator[m])
    ensures PlainSnippet(sn)
  {
    FreeByChar(sn.code, NameTerminator, m);
  }

  // Each bundled snippet is plain: its name lacks ':' and '\n', and its code lacks
  // ':' and one of '.' and '\n', except the last, whose only '.' and '\n' are too
  // far apart to form ".\n". Each fact about a literal is a lemma of its own.
  lemma AlertName() ensures LacksEither(AlertSnippet.name, ':', '\n') {}
  lemma AlertCode() ensures LacksEither(AlertSnippet.code, ':', '.') {}
  lemma AlertPlain() ensures PlainSnippet(AlertSnippet) { AlertName(); AlertCode(); PlainFrom(AlertSnippet, 0); }

  lemma ConfirmName() ensures LacksEither(ConfirmSnippet.name, ':', '\n') {}
  lemma ConfirmCode() ensures LacksEither(ConfirmSnippet.code, ':', '.') {}
  lemma ConfirmPlain() ensures PlainSnippet(ConfirmSnippet) { ConfirmName(); ConfirmCode(); PlainFrom(ConfirmSnippet, 0); }

  lemma PromptName() ensures LacksEither(PromptSnippet.name, ':', '\n') {}
  lemma PromptCode() ensures LacksEither(PromptSnippet.code, ':', '.') {}
  lemma PromptPlain() ensures PlainSnippet(PromptSnippet) { PromptName(); PromptCode(); PlainFrom(PromptSnippet, 0); }

  lemma ForLoopName() ensures LacksEither(ForLoopSnippet.name, ':', '\n') {}
  lemma ForLoopCode() ensures LacksEither(ForLoopSnippet.code, ':', '.') {
    var a, b := "for (let i = 0; i < 8; i++) {\n", "    // code\n" + "}";
    assert ForLoopSnippet.code == a + b;
    assert LacksEither(a, ':', '.');
    assert LacksEither(b, ':', '.');
    LacksEitherAppend(a, b, ':', '.');
  }
  lemma ForLoopPlain() ensures PlainSnippet(ForLoopSnippet) { ForLoopName(); ForLoopCode(); PlainFrom(ForLoopSnippet, 0); }

  lemma IfElseName() ensures LacksEither(IfElseSnippet.name, ':', '\n') {}
  lemma IfElseCode() ensures LacksEither(IfElseSnippet.code, ':', '.') {}
  lemma IfElsePlain() ensures PlainSnippet(IfElseSnippet) { IfElseName(); IfElseCode(); PlainFrom(IfElseSnippet, 0); }

  lemma QuerySelectorName() ensures LacksEither(QuerySelectorSnippet.name, ':', '\n') {}
  lemma QuerySelectorCode() ensures LacksEither(QuerySelectorSnippet.code, ':', '\n') {
    var a, b := "document.querySelector", "(selectors);";
    assert QuerySelectorSnippet.code == a + b;
    assert LacksEither(a, ':', '\n');
    assert LacksEither(b, ':', '\n');
    LacksEitherAppend(a, b, ':', '\n');
  }
  lemma QuerySelectorPlain() ensures PlainSnippet(QuerySelectorSnippet) { QuerySelectorName(); QuerySelectorCode(); PlainFrom(QuerySelectorSnippet, 1); }

  lemma QuerySelectorAllName() ensures LacksEither(QuerySelectorAllSnippet.name, ':', '\n') {}
  lemma QuerySelectorAllCode() ensures LacksEither(QuerySelectorAllSnippet.code, ':', '\n') {
    var a, b := "document.querySelectorAll", "(selectors);";
    assert QuerySelectorAllSnippet.code == a + b;
    assert LacksEither(a, ':', '\n');
    assert LacksEither(b, ':', '\n');
    LacksEitherAppend(a, b, ':', '\n');
  }
  lemma QuerySelectorAllPlain() ensures PlainSnippet(QuerySelectorAllSnippet) { QuerySelectorAllName(); QuerySelectorAllCode(); PlainFrom(QuerySelectorAllSnippet, 1); }

  lemma GetElementByIdName() ensures LacksEither(GetElementByIdSnippet.name, ':', '\n') {}
  lemma GetElementByIdCode() ensures Lacks(GetElementByIdSnippet.code, ':') {}
  lemma GetElementByIdFree() ensures Free(GetElementByIdSnippet.code, NameTerminator) {
    var a := "document.getElementById(id);";
    FreeByChar(a, NameTerminator, 1);
    FreeByChar("\n", NameTerminator, 0);
    FreeAppend(a, "\n", NameTerminator);
  }
  lemma GetElementByIdPlain() ensures PlainSnippet(GetElementByIdSnippet) {
    GetElementByIdName(); GetElementByIdCode(); GetElementByIdFree();
  }

  /**
   * The bundled resource parses without trapping into its eight snippets,
   * the first being window.alert(); the last keeps the file's final newline.
   */
  lemma BundledCatalogParses()
    ensures ParseCatalog(CodeSnippetsFile) == Parse(BundledSnippets, None)
    ensures |ParseCatalog(CodeSnippetsFile).snippets| == 8
    ensures ParseCatalog(CodeSnippetsFile).snippets[0] == CodeSnippet("window.alert()", "alert(message);")
  {
    AlertPlain(); ConfirmPlain(); PromptPlain(); ForLoopPlain(); IfElsePlain();
    QuerySelectorPlain(); QuerySelectorAllPlain(); GetElementByIdPlain();
    PlainCatalogWellFormed(BundledHeader, BundledSnippets);
    ParseRender(BundledHeader, BundledSnippets);
  }
}
