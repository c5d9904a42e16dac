/** Ingestion of the knowledge documents: a parsed JSON document is flattened
    into `path: value` lines, each input becomes a text with `source` and
    `type` metadata, and the inputs are the primary data file followed by the
    supported regular files of the knowledge directory, in listing order.
    Reading files and directories is given as data: a directory listing is
    a sequence of entries carrying their content, and JSON.parse is given
    as the parsed value (None when it throws). */
module Loader {
  import opened Text
  import opened Wrappers
  import opened Json

  // ---------------------------------------------------------------------
  // flattenObject

  /** `String(value)` for a primitive JSON value. */
  function Render(v: Value): string
    requires v.Bool? || v.Num? || v.Str?
  {
    match v
    case Bool(b) => if b then "true" else "false"
    case Num(repr) => repr
    case Str(s) => s
  }

  /** The prefix of a member: the key alone under an empty prefix, otherwise
      the prefix, a dot and the key. */
  function MemberPrefix(prefix: string, key: string): string {
    if prefix != "" then prefix + "." + key else key
  }

  /** The prefix of the array element at 0-based position `i`: indices are
      written 1-based. */
  function ItemPrefix(prefix: string, i: nat): string {
    prefix + "[" + NatToString(i + 1) + "]"
  }

  /** `flattenObject(value, prefix)`: one `path: value` line per non-null
      primitive, in document order. */
  function Flatten(v: Value, prefix: string): seq<string>
    decreases v, 1
  {
    match v
    case Null => []
    case Arr(items) => FlattenItems(items, prefix, 0)
    case Obj(members) => FlattenMembers(members, prefix)
    case _ => [prefix + ": " + Render(v)]
  }

  /** The lines of `items`, the first of which sits at 0-based position
      `offset` of its array. */
  function FlattenItems(items: seq<Value>, prefix: string, offset: nat): seq<string>
    decreases items, 0
  {
    if items == [] then []
    else Flatten(items[0], ItemPrefix(prefix, offset)) + FlattenItems(items[1..], prefix, offset + 1)
  }

  function FlattenMembers(members: seq<(string, Value)>, prefix: string): seq<string>
    decreases members, 0
  {
    if members == [] then []
    else
      var m := members[0];
      assert m in members && m.1 < m;
      Flatten(m.1, MemberPrefix(prefix, m.0)) + FlattenMembers(members[1..], prefix)
  }

  /** The number of non-null primitive values in a JSON tree. */
  function LeafCount(v: Value): nat
    decreases v, 1
  {
    match v
    case Null => 0
    case Arr(items) => ItemsLeafCount(items)
    case Obj(members) => MembersLeafCount(members)
    case _ => 1
  }

  function ItemsLeafCount(items: seq<Value>): nat
    decreases items, 0
  {
    if items == [] then 0 else LeafCount(items[0]) + ItemsLeafCount(items[1..])
  }

  function MembersLeafCount(members: seq<(string, Value)>): nat
    decreases members, 0
  {
    if members == [] then 0
    else
      var m := members[0];
      assert m in members && m.1 < m;
      LeafCount(m.1) + MembersLeafCount(members[1..])
  }

  /** Flattening gives exactly one line per non-null primitive; `null` and
      empty arrays and objects give none. */
  lemma {:induction false} FlattenLineCount(v: Value, prefix: string)
    ensures |Flatten(v, prefix)| == LeafCount(v)
    decreases v, 1
  {
    match v
    case Arr(items) => ItemsLineCount(items, prefix, 0);
    case Obj(members) => MembersLineCount(members, prefix);
    case _ =>
  }

  lemma {:induction false} ItemsLineCount(items: seq<Value>, prefix: string, offset: nat)
    ensures |FlattenItems(items, prefix, offset)| == ItemsLeafCount(items)
    decreases items, 0
  {
    if items != [] {
      FlattenLineCount(items[0], ItemPrefix(prefix, offset));
      ItemsLineCount(items[1..], prefix, offset + 1);
    }
  }

  lemma {:induction false} MembersLineCount(members: seq<(string, Value)>, prefix: string)
    ensures |FlattenMembers(members, prefix)| == MembersLeafCount(members)
    decreases members, 0
  {
    if members != [] {
      var m := members[0];
      assert m in members && m.1 < m;
      FlattenLineCount(m.1, MemberPrefix(prefix, m.0));
      MembersLineCount(members[1..], prefix);
    }
  }

  lemma StartsWithTrans(s: string, p: string, q: string)
    requires StartsWith(s, p) && StartsWith(p, q)
    ensures StartsWith(s, q)
  {
    assert s[..|q|] == s[..|p|][..|q|];
  }

  /** Every line of `flattenObject(value, prefix)` starts with `prefix`. */
  lemma {:induction false} FlattenStartsWithPrefix(v: Value, prefix: string)
    ensures forall k :: 0 <= k < |Flatten(v, prefix)| ==> StartsWith(Flatten(v, prefix)[k], prefix)
    decreases v, 1
  {
    match v
    case Arr(items) => ItemsStartWithPrefix(items, prefix, 0);
    case Obj(members) => MembersStartWithPrefix(members, prefix);
    case Null =>
    case _ =>
      assert (prefix + ": " + Render(v))[..|prefix|] == prefix;
  }

  lemma {:induction false} ItemsStartWithPrefix(items: seq<Value>, prefix: string, offset: nat)
    ensures forall k :: 0 <= k < |FlattenItems(items, prefix, offset)| ==>
      StartsWith(FlattenItems(items, prefix, offset)[k], prefix)
    decreases items, 0
  {
    if items != [] {
      var p := ItemPrefix(prefix, offset);
      assert p[..|prefix|] == prefix;
      FlattenStartsWithPrefix(items[0], p);
      ItemsStartWithPrefix(items[1..], prefix, offset + 1);
      var head := Flatten(items[0], p);
      forall k | 0 <= k < |head| ensures StartsWith(head[k], prefix) {
        StartsWithTrans(head[k], p, prefix);
      }
    }
  }

  lemma {:induction false} MembersStartWithPrefix(members: seq<(string, Value)>, prefix: string)
    ensures forall k :: 0 <= k < |FlattenMembers(members, prefix)| ==>
      StartsWith(FlattenMembers(members, prefix)[k], prefix)
    decreases members, 0
  {
    if members != [] {
      var m := members[0];
      assert m in members && m.1 < m;
      var p := MemberPrefix(prefix, m.0);
      assert StartsWith(p, prefix) by {
        if prefix != "" { assert p[..|prefix|] == prefix; }
      }
      FlattenStartsWithPrefix(m.1, p);
      MembersStartWithPrefix(members[1..], prefix);
      var head := Flatten(m.1, p);
      forall k | 0 <= k < |head| ensures StartsWith(head[k], prefix) {
        StartsWithTrans(head[k], p, prefix);
      }
    }
  }

  /** Appending an element to the items from `offset` on appends its lines
      under its own position `pos`. */
  lemma {:induction false} FlattenItemsAppend(items: seq<Value>, x: Value, prefix: string, offset: nat, pos: nat)
    requires pos == offset + |items|
    ensures FlattenItems(items + [x], prefix, offset)
      == FlattenItems(items, prefix, offset) + Flatten(x, ItemPrefix(prefix, pos))
  {
    if items == [] {
      assert items + [x] == [x];
    } else {
      assert (items + [x])[0] == items[0] && (items + [x])[1..] == items[1..] + [x];
      FlattenItemsAppend(items[1..], x, prefix, offset + 1, pos);
    }
  }

  /** Array order is kept and element `i` (0-based) is flattened under
      `prefix[i+1]`: appending an element appends its lines, under the
      1-based index of its position. */
  lemma ArrayElementLines(items: seq<Value>, x: Value, prefix: string)
    ensures Flatten(Arr(items + [x]), prefix)
      == Flatten(Arr(items), prefix) + Flatten(x, prefix + "[" + NatToString(|items| + 1) + "]")
  {
    FlattenItemsAppend(items, x, prefix, 0, |items|);
  }

  lemma {:induction false} FlattenMembersAppend(members: seq<(string, Value)>, key: string, x: Value, prefix: string)
    ensures FlattenMembers(members + [(key, x)], prefix)
      == FlattenMembers(members, prefix) + Flatten(x, MemberPrefix(prefix, key))
  {
    if members == [] {
      assert members + [(key, x)] == [(key, x)];
    } else {
      var all := members + [(key, x)];
      var m := members[0];
      var h := Flatten(m.1, MemberPrefix(prefix, m.0));
      assert all[0] == m && all[1..] == members[1..] + [(key, x)];
      assert FlattenMembers(all, prefix) == h + FlattenMembers(members[1..] + [(key, x)], prefix);
      FlattenMembersAppend(members[1..], key, x, prefix);
      AppendAssoc(h, FlattenMembers(members[1..], prefix), Flatten(x, MemberPrefix(prefix, key)));
    }
  }

  /** Entry order is kept and a member `key` is flattened under
      `prefix.key`, or under `key` alone when the prefix is empty. */
  lemma ObjectMemberLines(members: seq<(string, Value)>, key: string, x: Value, prefix: string)
    ensures Flatten(Obj(members + [(key, x)]), prefix)
      == Flatten(Obj(members), prefix) + Flatten(x, if prefix == "" then key else prefix + "." + key)
  {
    assert Flatten(Obj(members + [(key, x)]), prefix) == FlattenMembers(members + [(key, x)], prefix);
    assert Flatten(Obj(members), prefix) == FlattenMembers(members, prefix);
    FlattenMembersAppend(members, key, x, prefix);
  }

  // ---------------------------------------------------------------------
  // toDocumentInput

  datatype Metadata = Metadata(source: string, docType: string)

  datatype DocumentInput = DocumentInput(text: string, metadata: Metadata)

  /** JSON.parse threw on the content of the named file. */
  datatype LoadError = ParseError(source: string)

  /** A file to ingest: where it came from, its lower-cased extension, its
      raw content and what JSON.parse makes of that content. */
  datatype SourceFile = SourceFile(source: string, ext: string, raw: string, parsed: Option<Value>)

  /** The text of a JSON input: the flattened lines with every underscore
      replaced by a space, joined with line feeds. */
  function JsonText(json: Value): string {
    Join(Replaced(Flatten(json, "")), "\n")
  }

  function Replaced(lines: seq<string>): (r: seq<string>)
    ensures |r| == |lines|
    ensures forall k :: 0 <= k < |r| ==> r[k] == ReplaceChar(lines[k], '_', ' ')
  {
    if lines == [] then [] else [ReplaceChar(lines[0], '_', ' ')] + Replaced(lines[1..])
  }

  lemma {:induction false} JoinWithout(parts: seq<string>, sep: string, c: char)
    requires c !in sep
    requires forall k :: 0 <= k < |parts| ==> c !in parts[k]
    ensures c !in Join(parts, sep)
  {
    if |parts| > 1 {
      JoinWithout(parts[1..], sep, c);
    }
  }

  /** No underscore survives in the text of a JSON input, in keys and values
      alike. */
  lemma JsonTextHasNoUnderscore(json: Value)
    ensures '_' !in JsonText(json)
  {
    var lines := Replaced(Flatten(json, ""));
    forall k | 0 <= k < |lines| ensures '_' !in lines[k] {
      assert forall i :: 0 <= i < |lines[k]| ==> lines[k][i] != '_';
    }
    JoinWithout(lines, "\n", '_');
  }

  /** `toDocumentInput`: a `.json` file becomes its flattened text with type
      `json`, or a parse error; any other file keeps its raw content and has
      its extension without the dot as type. */
  function ToDocumentInput(f: SourceFile): (r: Result<DocumentInput, LoadError>)
    ensures r.Failure? <==> f.ext == ".json" && f.parsed.None?
    ensures r.Failure? ==> r.error == ParseError(f.source)
    ensures r.Success? ==> r.value.metadata.source == f.source
    ensures r.Success? && f.ext == ".json" ==>
      r.value.metadata.docType == "json" && r.value.text == JsonText(f.parsed.value)
    ensures r.Success? && f.ext != ".json" ==>
      r.value.text == f.raw && r.value.metadata.docType == (if f.ext == "" then "" else f.ext[1..])
  {
    if f.ext == ".json" then
      match f.parsed
      case None => Failure(ParseError(f.source))
      case Some(json) => Success(DocumentInput(JsonText(json), Metadata(f.source, "json")))
    else Success(DocumentInput(f.raw, Metadata(f.source, if f.ext == "" then "" else f.ext[1..])))
  }

  // ---------------------------------------------------------------------
  // collectKnowledgeFiles

  const MAIN_SOURCE: string := "collegeData.json"
  const KNOWLEDGE_DIR: string := "knowledge"

  /** `SUPPORTED_EXTENSIONS`. */
  predicate IsSupportedExtension(ext: string) {
    ext == ".json" || ext == ".txt" || ext == ".md"
  }

  /** A directory entry as `readdir` lists it, with the content a read of
      the file would return. */
  datatype DirEntry = DirEntry(name: string, isFile: bool, raw: string, parsed: Option<Value>)

  function LastDot(name: string): (r: Option<nat>)
    ensures r.Some? ==> r.value < |name| && name[r.value] == '.' && '.' !in name[r.value + 1..]
    ensures r.None? ==> '.' !in name
  {
    if name == [] then None
    else if name[|name| - 1] == '.' then Some(|name| - 1)
    else
      var r := LastDot(name[..|name| - 1]);
      assert name == name[..|name| - 1] + [name[|name| - 1]];
      r
  }

  /** `path.extname` of a file name: from the last dot to the end, except
      that a name without a dot, a name whose only dot is its first
      character, and `..` have none. */
  function ExtName(name: string): (ext: string)
    ensures ext == [] || (ext[0] == '.' && '.' !in ext[1..] && |ext| < |name| && ext == name[|name| - |ext|..])
    ensures ext != [] <==> name != ".." && exists i :: 0 < i < |name| && name[i] == '.'
  {
    match LastDot(name)
    case None => ""
    case Some(i) =>
      assert forall j :: i < j < |name| ==> name[j] == name[i + 1..][j - i - 1];
      if i == 0 || name == ".." then "" else name[i..]
  }

  /** The lower-cased extension of an entry, as the filter compares it. */
  function EntryExtension(e: DirEntry): string {
    ToLowerCase(ExtName(e.name))
  }

  /** An entry the collection takes: a regular file with a supported
      extension. */
  predicate IsSelected(e: DirEntry) {
    e.isFile && IsSupportedExtension(EntryExtension(e))
  }

  /** `path.relative(dataDir, fullPath)` with backslashes made forward
      slashes: the data-relative source of a knowledge file. */
  function EntrySource(name: string): string {
    KNOWLEDGE_DIR + "/" + ReplaceChar(name, '\\', '/')
  }

  function EntryFile(e: DirEntry): SourceFile {
    SourceFile(EntrySource(e.name), EntryExtension(e), e.raw, e.parsed)
  }

  /** `safeReadDir`: an unreadable directory lists nothing. */
  function SafeReadDir(listing: Option<seq<DirEntry>>): seq<DirEntry> {
    if listing.Some? then listing.value else []
  }

  /** The files the collection takes from a listing, in listing order. */
  function SelectedFiles(entries: seq<DirEntry>): (files: seq<SourceFile>)
    ensures |files| <= |entries|
  {
    if entries == [] then []
    else (if IsSelected(entries[0]) then [EntryFile(entries[0])] else []) + SelectedFiles(entries[1..])
  }

  /** The inputs of `files` in order, or the error of the first file that
      fails (a thrown error aborts the collection). */
  function InputsOf(files: seq<SourceFile>): Result<seq<DocumentInput>, LoadError> {
    if files == [] then Success([])
    else match ToDocumentInput(files[0])
      case Failure(e) => Failure(e)
      case Success(d) =>
        match InputsOf(files[1..])
        case Failure(e) => Failure(e)
        case Success(ds) => Success([d] + ds)
  }

  /** The collection succeeds exactly when every file converts, and then
      lists their inputs one for one, in order. */
  lemma {:induction false} InputsOfSuccess(files: seq<SourceFile>)
    ensures InputsOf(files).Success? <==> forall k :: 0 <= k < |files| ==> ToDocumentInput(files[k]).Success?
    ensures InputsOf(files).Success? ==>
      |InputsOf(files).value| == |files|
      && forall k :: 0 <= k < |files| ==> InputsOf(files).value[k] == ToDocumentInput(files[k]).value
  {
    if files != [] {
      InputsOfSuccess(files[1..]);
      assert forall k :: 1 <= k < |files| ==> files[k] == files[1..][k - 1];
    }
  }

  lemma {:induction false} InputsOfAppend(files: seq<SourceFile>, f: SourceFile)
    ensures InputsOf(files + [f]) ==
      match InputsOf(files)
      case Failure(e) => Failure(e)
      case Success(ds) =>
        match ToDocumentInput(f)
        case Failure(e) => Failure(e)
        case Success(d) => Success(ds + [d])
  {
    if files == [] {
      assert files + [f] == [f] && [f][1..] == [];
      assert InputsOf([f][1..]) == Success([]);
      if ToDocumentInput(f).Success? {
        var d := ToDocumentInput(f).value;
        assert [d] + [] == [d] && [] + [d] == [d];
      }
    } else {
      assert (files + [f])[0] == files[0] && (files + [f])[1..] == files[1..] + [f];
      InputsOfAppend(files[1..], f);
      match ToDocumentInput(files[0])
      case Failure(e) =>
      case Success(d) =>
        match InputsOf(files[1..])
        case Failure(e) =>
        case Success(ds) =>
          if ToDocumentInput(f).Success? {
            assert [d] + (ds + [ToDocumentInput(f).value]) == ([d] + ds) + [ToDocumentInput(f).value];
          }
    }
  }

  lemma {:induction false} SelectedFilesAppend(entries: seq<DirEntry>, e: DirEntry)
    ensures SelectedFiles(entries + [e]) == SelectedFiles(entries) + (if IsSelected(e) then [EntryFile(e)] else [])
  {
    if entries == [] {
      assert entries + [e] == [e];
    } else {
      var h := if IsSelected(entries[0]) then [EntryFile(entries[0])] else [];
      var t := if IsSelected(e) then [EntryFile(e)] else [];
      assert (entries + [e])[0] == entries[0] && (entries + [e])[1..] == entries[1..] + [e];
      assert SelectedFiles(entries + [e]) == h + SelectedFiles(entries[1..] + [e]);
      SelectedFilesAppend(entries[1..], e);
      AppendAssoc(h, SelectedFiles(entries[1..]), t);
    }
  }

  /** The primary data file as a source file. */
  function MainFile(raw: string, parsed: Option<Value>): SourceFile {
    SourceFile(MAIN_SOURCE, ".json", raw, parsed)
  }

  /** `collectKnowledgeFiles`: the primary data file first, then every
      selected entry of the knowledge directory in listing order; the first
      file whose JSON does not parse aborts the whole collection. */
  method CollectKnowledgeFiles(mainRaw: string, mainParsed: Option<Value>, listing: Option<seq<DirEntry>>)
    returns (r: Result<seq<DocumentInput>, LoadError>)
    ensures r == InputsOf([MainFile(mainRaw, mainParsed)] + SelectedFiles(SafeReadDir(listing)))
  {
    var main := MainFile(mainRaw, mainParsed);
    var first := ToDocumentInput(main);
    if first.Failure? {
      return Failure(first.error);
    }
    var inputs := [first.value];
    var entries := SafeReadDir(listing);
    ghost var taken := [main];
    assert InputsOf([main][1..]) == Success([]);
    assert [first.value] + [] == [first.value];
    for k := 0 to |entries|
      invariant taken == [main] + SelectedFiles(entries[..k])
      invariant InputsOf(taken) == Success(inputs)
    {
      var entry := entries[k];
      CollectStep(entries, k, main);
      if !entry.isFile {
        continue;
      }
      var ext := ToLowerCase(ExtName(entry.name));
      if !IsSupportedExtension(ext) {
        continue;
      }
      var file := SourceFile(EntrySource(entry.name), ext, entry.raw, entry.parsed);
      assert file == EntryFile(entry);
      InputsOfAppend(taken, file);
      var input := ToDocumentInput(file);
      taken := taken + [file];
      if input.Failure? {
        CollectAborts(entries, k, [main]);
        return Failure(input.error);
      }
      inputs := inputs + [input.value];
    }
    assert entries[..|entries|] == entries;
    r := Success(inputs);
  }

  lemma CollectStep(entries: seq<DirEntry>, k: nat, main: SourceFile)
    requires k < |entries|
    ensures [main] + SelectedFiles(entries[..k + 1])
      == [main] + SelectedFiles(entries[..k]) + (if IsSelected(entries[k]) then [EntryFile(entries[k])] else [])
  {
    assert entries[..k + 1] == entries[..k] + [entries[k]];
    SelectedFilesAppend(entries[..k], entries[k]);
  }

  lemma CollectAborts(entries: seq<DirEntry>, k: nat, head: seq<SourceFile>)
    requires k < |entries|
    requires InputsOf(head + SelectedFiles(entries[..k + 1])).Failure?
    ensures InputsOf(head + SelectedFiles(entries)) == InputsOf(head + SelectedFiles(entries[..k + 1]))
  {
    var front := SelectedFiles(entries[..k + 1]);
    var back := SelectedFiles(entries[k + 1..]);
    SelectedFilesSplit(entries, k + 1);
    AppendAssoc(head, front, back);
    InputsOfAbort(head + front, back);
  }

  lemma AppendAssoc<T>(a: seq<T>, b: seq<T>, c: seq<T>)
    ensures (a + b) + c == a + (b + c)
  {
  }

  lemma {:induction false} InputsOfAbort(files: seq<SourceFile>, more: seq<SourceFile>)
    requires InputsOf(files).Failure?
    ensures InputsOf(files + more) == InputsOf(files)
  {
    if files[0] == (files + more)[0] && ToDocumentInput(files[0]).Success? {
      assert (files + more)[1..] == files[1..] + more;
      InputsOfAbort(files[1..], more);
    }
  }

  lemma {:induction false} SelectedFilesSplit(entries: seq<DirEntry>, k: nat)
    requires k <= |entries|
    ensures SelectedFiles(entries) == SelectedFiles(entries[..k]) + SelectedFiles(entries[k..])
  {
    if k > 0 {
      var h := if IsSelected(entries[0]) then [EntryFile(entries[0])] else [];
      var rest := entries[1..];
      assert rest[..k - 1] == entries[1..k] && rest[k - 1..] == entries[k..];
      SelectedFilesSplit(rest, k - 1);
      assert SelectedFiles(entries) == h + SelectedFiles(rest);
      assert entries[..k][0] == entries[0] && entries[..k][1..] == entries[1..k];
      assert SelectedFiles(entries[..k]) == h + SelectedFiles(entries[1..k]);
      AppendAssoc(h, SelectedFiles(entries[1..k]), SelectedFiles(entries[k..]));
    } else {
      assert entries[..0] == [] && entries[0..] == entries;
    }
  }

  /** What the collection keeps of a listing: exactly its selected entries,
      in listing order, each as a knowledge-relative source file. */
  lemma {:induction false} SelectedFilesAreSelected(entries: seq<DirEntry>)
    ensures forall f :: f in SelectedFiles(entries) ==>
      exists k :: 0 <= k < |entries| && IsSelected(entries[k]) && f == EntryFile(entries[k])
    ensures forall k :: 0 <= k < |entries| && IsSelected(entries[k]) ==> EntryFile(entries[k]) in SelectedFiles(entries)
  {
    if entries != [] {
      SelectedFilesAreSelected(entries[1..]);
      assert forall k :: 1 <= k < |entries| ==> entries[k] == entries[1..][k - 1];
      forall f | f in SelectedFiles(entries[1..])
        ensures exists k :: 0 <= k < |entries| && IsSelected(entries[k]) && f == EntryFile(entries[k])
      {
        var j :| 0 <= j < |entries[1..]| && IsSelected(entries[1..][j]) && f == EntryFile(entries[1..][j]);
        assert entries[j + 1] == entries[1..][j];
      }
    }
  }

  /** When the knowledge directory cannot be read, the only input is the
      primary data file's. */
  lemma UnreadableDirectoryKeepsMain(mainRaw: string, mainParsed: Option<Value>)
    ensures var r := InputsOf([MainFile(mainRaw, mainParsed)] + SelectedFiles(SafeReadDir(None)));
      && (r.Success? <==> ToDocumentInput(MainFile(mainRaw, mainParsed)).Success?)
      && (r.Success? ==> r.value == [ToDocumentInput(MainFile(mainRaw, mainParsed)).value])
  {
    var files := [MainFile(mainRaw, mainParsed)];
    assert files + SelectedFiles(SafeReadDir(None)) == files;
    InputsOfSuccess(files);
  }

  // ---------------------------------------------------------------------
  // loadCollegeDocuments

  /** A chunk as the text splitter returns it. */
  datatype Chunk = Chunk(pageContent: string, metadata: Metadata)

  function AllChunks(inputs: seq<DocumentInput>, split: DocumentInput -> seq<Chunk>): seq<Chunk> {
    if inputs == [] then [] else AllChunks(inputs[..|inputs| - 1], split) + split(inputs[|inputs| - 1])
  }

  /** `loadCollegeDocuments` after collection: the chunks of each input,
      input after input. The splitter itself is a parameter. */
  method LoadCollegeDocuments(inputs: seq<DocumentInput>, split: DocumentInput -> seq<Chunk>)
    returns (allDocs: seq<Chunk>)
    ensures allDocs == AllChunks(inputs, split)
  {
    allDocs := [];
    for k := 0 to |inputs|
      invariant allDocs == AllChunks(inputs[..k], split)
    {
      assert inputs[..k + 1][..k] == inputs[..k];
      allDocs := allDocs + split(inputs[k]);
    }
    assert inputs[..|inputs|] == inputs;
  }

  /** Every chunk comes from the split of some input, and every chunk of
      every input is kept. */
  lemma {:induction false} AllChunksFromInputs(inputs: seq<DocumentInput>, split: DocumentInput -> seq<Chunk>)
    ensures forall c :: c in AllChunks(inputs, split) <==> exists k :: 0 <= k < |inputs| && c in split(inputs[k])
  {
    if inputs != [] {
      var init := inputs[..|inputs| - 1];
      AllChunksFromInputs(init, split);
      forall c | c in AllChunks(inputs, split)
        ensures exists k :: 0 <= k < |inputs| && c in split(inputs[k])
      {
        if c in AllChunks(init, split) {
          var k :| 0 <= k < |init| && c in split(init[k]);
          assert inputs[k] == init[k];
        } else {
          assert c in split(inputs[|inputs| - 1]);
        }
      }
      forall c, k | 0 <= k < |inputs| && c in split(inputs[k])
        ensures c in AllChunks(inputs, split)
      {
        if k < |init| {
          assert inputs[k] == init[k];
        }
      }
    }
  }

  /** The chunks of two batches of inputs are the chunks of the first
      followed by those of the second. */
  lemma {:induction false} AllChunksAppend(a: seq<DocumentInput>, b: seq<DocumentInput>, split: DocumentInput -> seq<Chunk>)
    ensures AllChunks(a + b, split) == AllChunks(a, split) + AllChunks(b, split)
  {
    if b != [] {
      var init := b[..|b| - 1];
      AllChunksAppend(a, init, split);
      assert (a + b)[..|a + b| - 1] == a + init;
      assert (a + b)[|a + b| - 1] == b[|b| - 1];
    } else {
      assert a + b == a;
    }
  }
}
