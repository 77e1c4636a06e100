/**
 * `local_parser.py`: walks a local directory tree and wraps every file in
 * an envelope chosen by its extension (a described block for markdown,
 * plain text and unknown extensions, a fenced code block for source files),
 * then writes one single-field row per file.
 */
module LocalParser {
  import opened Wrappers
  import opened Strings
  import opened Blocks
  import Corpus

  // ---------------------------------------------------------------------
  // os.path.splitext on POSIX paths

  /** Index of the last `c` among the first `n` characters of `s`, or -1
      when there is none. */
  function LastBefore(s: string, c: char, n: nat): (i: int)
    requires n <= |s|
    ensures -1 <= i < n
    ensures i >= 0 ==> s[i] == c
    decreases n
  {
    if n == 0 then -1
    else if s[n - 1] == c then n - 1
    else LastBefore(s, c, n - 1)
  }

  /** `s.rfind(c)`: index of the last `c` in `s`, or -1 when there is none. */
  function RFind(s: string, c: char): (i: int)
    ensures -1 <= i < |s|
    ensures i >= 0 ==> s[i] == c
  {
    LastBefore(s, c, |s|)
  }

  lemma {:induction false} LastBeforeLast(s: string, c: char, n: nat)
    requires n <= |s|
    ensures forall j :: LastBefore(s, c, n) < j < n ==> s[j] != c
    decreases n
  {
    if n > 0 && s[n - 1] != c {
      LastBeforeLast(s, c, n - 1);
    }
  }

  lemma {:induction false} LastBeforeIs(s: string, c: char, n: nat, k: int)
    requires n <= |s| && -1 <= k < n && (k >= 0 ==> s[k] == c)
    requires forall j :: k < j < n ==> s[j] != c
    ensures LastBefore(s, c, n) == k
    decreases n
  {
    if n > 0 && s[n - 1] != c {
      LastBeforeIs(s, c, n - 1, k);
    }
  }

  /** No `c` comes after the one `RFind` finds. */
  lemma RFindLast(s: string, c: char)
    ensures forall j :: RFind(s, c) < j < |s| ==> s[j] != c
  {
    LastBeforeLast(s, c, |s|);
  }

  /** `RFind` finds `k` exactly when `s[k]` is `c` (or `k` is -1) and no `c`
      comes after it. */
  lemma RFindIs(s: string, c: char, k: int)
    requires -1 <= k < |s| && (k >= 0 ==> s[k] == c)
    requires forall j :: k < j < |s| ==> s[j] != c
    ensures RFind(s, c) == k
  {
    LastBeforeIs(s, c, |s|, k);
  }

  /** The scan of `splitext` from `lo` up to `hi`: some character there is
      not a dot. */
  predicate NonDotIn(p: string, lo: nat, hi: nat)
    requires lo <= hi <= |p|
    decreases hi - lo
  {
    lo < hi && (p[lo] != '.' || NonDotIn(p, lo + 1, hi))
  }

  lemma {:induction false} NonDotInExists(p: string, lo: nat, hi: nat)
    requires lo <= hi <= |p|
    ensures NonDotIn(p, lo, hi) <==> exists k :: lo <= k < hi && p[k] != '.'
    decreases hi - lo
  {
    if lo < hi {
      NonDotInExists(p, lo + 1, hi);
    }
  }

  /** `os.path.splitext(p)[1]`: from the last dot of the last component to
      the end, provided something other than a dot comes before that dot in
      the component (so `.bashrc` and `..` have no extension). */
  function Extension(p: string): string
  {
    var sep := RFind(p, '/');
    var dot := RFind(p, '.');
    if dot > sep && NonDotIn(p, sep + 1, dot) then p[dot..] else ""
  }

  /** An extension, when there is one, is a dot followed by neither a dot nor
      a slash, and ends the path. */
  lemma ExtensionShape(p: string)
    ensures var e := Extension(p);
            e == "" || (e[0] == '.' && '.' !in e[1..] && '/' !in e && EndsWith(p, e) && |e| < |p|)
  {
    var sep := RFind(p, '/');
    var dot := RFind(p, '.');
    if dot > sep && NonDotIn(p, sep + 1, dot) {
      var e := p[dot..];
      RFindLast(p, '/');
      RFindLast(p, '.');
      assert forall j :: 0 <= j < |e| ==> e[j] == p[dot + j];
      assert '/' !in e;
      assert forall j :: 0 <= j < |e| - 1 ==> e[1..][j] == p[dot + 1 + j];
      assert p[|p| - |e|..] == e;
    }
  }

  /** Round trip: a stem whose last component holds something other than
      dots, followed by a dot and a dot-free, slash-free suffix, has exactly
      that suffix as its extension. */
  lemma ExtensionOfStem(stem: string, e: string)
    requires |e| > 0 && e[0] == '.' && '.' !in e[1..] && '/' !in e
    requires exists k :: RFind(stem, '/') < k < |stem| && stem[k] != '.'
    ensures Extension(stem + e) == e
  {
    var p := stem + e;
    var sep := RFind(stem, '/');
    var n := |stem|;
    assert RFind(p, '/') == sep by {
      RFindLast(stem, '/');
      forall j | sep < j < |p| ensures p[j] != '/' {
        if j < n {
          assert p[j] == stem[j];
        } else {
          assert p[j] == e[j - n];
        }
      }
      RFindIs(p, '/', sep);
    }
    assert RFind(p, '.') == n by {
      forall j | n < j < |p| ensures p[j] != '.' {
        assert p[j] == e[1..][j - n - 1];
      }
      RFindIs(p, '.', n);
    }
    assert NonDotIn(p, sep + 1, n) by {
      var k :| sep < k < n && stem[k] != '.';
      assert p[k] == stem[k];
      NonDotInExists(p, sep + 1, n);
    }
    assert p[n..] == e;
  }

  /** A last component that starts with its only dot (a hidden file such as
      `.gitignore`) has no extension. */
  lemma HiddenFileHasNoExtension(p: string)
    requires var sep := RFind(p, '/');
             && sep + 1 < |p| && p[sep + 1] == '.'
             && forall j :: sep + 1 < j < |p| ==> p[j] != '.'
    ensures Extension(p) == ""
  {
    RFindIs(p, '.', RFind(p, '/') + 1);
  }

  /** A last component without a dot has no extension. */
  lemma NoDotNoExtension(p: string)
    requires forall j :: RFind(p, '/') < j < |p| ==> p[j] != '.'
    ensures Extension(p) == ""
  {
  }

  // ---------------------------------------------------------------------
  // Envelopes by extension

  /** The three envelopes the chain chooses from. */
  datatype Envelope = Describe(header: string) | Fence(tag: string) | OpenFence(tag: string)

  /** The envelope around a file at relative path `p`. */
  function Wrap(env: Envelope, p: string, content: string): string
  {
    match env
    case Describe(header) => Described(header, p, content)
    case Fence(tag) => Fenced(tag, p, content)
    case OpenFence(tag) => OpenFenced(tag, p, content)
  }

  /** The branches of the `if`/`elif` chain of `process_local_repo`, in
      order: each tested extension with the envelope it selects. As written,
      `.tsx` opens a `typescript` fence and never closes it. */
  const Chain: seq<(string, Envelope)> := [
    (".md", Describe(MarkdownHeader)), (".rs", Fence("rust")), (".sh", Fence("bash")),
    (".py", Fence("python")), (".js", Fence("javascript")), (".json", Fence("json")),
    (".txt", Describe(PlainTextHeader)), (".toml", Fence("toml")), (".jsx", Fence("jsx")),
    (".css", Fence("css")), (".java", Fence("java")), (".hpp", Fence("hpp")),
    (".c", Fence("c")), (".yml", Fence("yml")), (".xml", Fence("xml")),
    (".html", Fence("html")), (".tsx", OpenFence("typescript"))
  ]

  /** The `else` branch of the chain. */
  const Fallback: Envelope := Describe(DocumentHeader)

  /** The envelope of the first branch whose extension is `ext`, or the
      `else` branch when none is. */
  function Lookup(chain: seq<(string, Envelope)>, ext: string): Envelope
  {
    if chain == [] then Fallback
    else if chain[0].0 == ext then chain[0].1
    else Lookup(chain[1..], ext)
  }

  /** The envelope chain of `process_local_repo` for a file at relative path
      `p` with extension `ext`. */
  function Format(ext: string, p: string, content: string): string
  {
    Wrap(Lookup(Chain, ext), p, content)
  }

  /** The first branch that tests `ext` decides. */
  lemma {:induction false} LookupFirst(chain: seq<(string, Envelope)>, ext: string, i: nat)
    requires i < |chain| && chain[i].0 == ext
    requires forall j :: 0 <= j < i ==> chain[j].0 != ext
    ensures Lookup(chain, ext) == chain[i].1
  {
    if i > 0 {
      assert chain[0].0 != ext;
      assert forall j :: 0 <= j < i - 1 ==> chain[1..][j] == chain[j + 1];
      LookupFirst(chain[1..], ext, i - 1);
    }
  }

  /** With no branch testing `ext`, the `else` branch decides. */
  lemma {:induction false} LookupMissing(chain: seq<(string, Envelope)>, ext: string)
    requires forall j :: 0 <= j < |chain| ==> chain[j].0 != ext
    ensures Lookup(chain, ext) == Fallback
  {
    if chain != [] {
      assert chain[0].0 != ext;
      assert forall j :: 0 <= j < |chain| - 1 ==> chain[1..][j] == chain[j + 1];
      LookupMissing(chain[1..], ext);
    }
  }

  /** Whatever a chain selects is one of its envelopes or the `else` branch. */
  lemma {:induction false} LookupIn(chain: seq<(string, Envelope)>, ext: string)
    ensures Lookup(chain, ext) == Fallback || exists j :: 0 <= j < |chain| && chain[j] == (ext, Lookup(chain, ext))
  {
    if chain != [] && chain[0].0 != ext {
      LookupIn(chain[1..], ext);
      if Lookup(chain, ext) != Fallback {
        var j :| 0 <= j < |chain| - 1 && chain[1..][j] == (ext, Lookup(chain, ext));
        assert chain[j + 1] == chain[1..][j];
      }
    }
  }

  /** No two branches of the chain test the same extension, so every branch
      is reachable. */
  lemma ChainKeysDistinct()
    ensures forall i, j :: 0 <= i < j < |Chain| ==> Chain[i].0 != Chain[j].0
  {
    forall i, j | 0 <= i < j < |Chain| ensures Chain[i].0 != Chain[j].0 {
      var a, b := Chain[i].0, Chain[j].0;
      assert |a| != |b| || a[1] != b[1] || a[|a| - 1] != b[|b| - 1] || a[2] != b[2];
    }
  }

  /** A file whose extension a branch tests gets that branch's envelope; any
      other file gets the generic described block. */
  lemma FormatByChain(ext: string, p: string, content: string)
    ensures forall i :: 0 <= i < |Chain| && Chain[i].0 == ext ==> Format(ext, p, content) == Wrap(Chain[i].1, p, content)
    ensures (forall i :: 0 <= i < |Chain| ==> Chain[i].0 != ext) ==> Format(ext, p, content) == Described(DocumentHeader, p, content)
  {
    ChainKeysDistinct();
    forall i | 0 <= i < |Chain| && Chain[i].0 == ext ensures Format(ext, p, content) == Wrap(Chain[i].1, p, content) {
      LookupFirst(Chain, ext, i);
    }
    if forall i :: 0 <= i < |Chain| ==> Chain[i].0 != ext {
      LookupMissing(Chain, ext);
    }
  }

  /** The described branches: markdown and plain text get their own header;
      no extension, or one the chain does not test, gets the generic one. */
  lemma DescribedBranches(p: string, content: string)
    ensures Format(".md", p, content) == Described(MarkdownHeader, p, content)
    ensures Format(".txt", p, content) == Described(PlainTextHeader, p, content)
    ensures Format("", p, content) == Described(DocumentHeader, p, content)
  {
    ChainKeysDistinct();
    LookupFirst(Chain, ".md", 0);
    LookupFirst(Chain, ".txt", 6);
    LookupMissing(Chain, "");
  }

  /** Every envelope holds the relative path and the whole content verbatim. */
  lemma WrapHolds(env: Envelope, p: string, content: string)
    ensures |Wrap(env, p, content)| > 0
    ensures Contains(Wrap(env, p, content), p) && Contains(Wrap(env, p, content), content)
    ensures env.Fence? ==> EndsWith(Wrap(env, p, content), "\n```")
  {
    match env {
      case Describe(h) => DescribedHolds(h, p, content);
      case Fence(t) => FencedHolds(t, p, content);
      case OpenFence(t) => OpenFencedHolds(t, p, content);
    }
  }

  /** Whatever the extension, the envelope holds the relative path and the
      whole content verbatim. */
  lemma FormatHolds(ext: string, p: string, content: string)
    ensures |Format(ext, p, content)| > 0
    ensures Contains(Format(ext, p, content), p)
    ensures Contains(Format(ext, p, content), content)
  {
    WrapHolds(Lookup(Chain, ext), p, content);
  }

  /** As written, a `.tsx` file gets an opening `typescript` fence that is
      never closed: for content without backquotes the envelope does not end
      with the closing fence. */
  lemma TsxFenceUnclosed(p: string, content: string)
    requires '`' !in content
    ensures Format(".tsx", p, content) == OpenFenced("typescript", p, content)
    ensures !EndsWith(Format(".tsx", p, content), "\n```")
  {
    ChainKeysDistinct();
    LookupFirst(Chain, ".tsx", |Chain| - 1);
    var b := OpenFenced("typescript", p, content);
    if content != [] {
      assert b[|b| - 1] == content[|content| - 1];
    } else {
      assert b[|b| - 1] == '\n';
    }
  }

  /** In the chain as written, `.tsx` is the only extension whose fence is
      left open. */
  lemma OnlyTsxOpen()
    ensures forall j :: 0 <= j < |Chain| ==> (Chain[j].1.OpenFence? <==> Chain[j].0 == ".tsx")
  {
  }

  /** The chain with the `.tsx` fence closed like the others. */
  const ChainIntended: seq<(string, Envelope)> := Chain[..|Chain| - 1] + [(".tsx", Fence("typescript"))]

  /** The envelope chain with the intended `.tsx` branch. */
  function FormatIntended(ext: string, p: string, content: string): string
  {
    Wrap(Lookup(ChainIntended, ext), p, content)
  }

  /** With the fence closed every envelope is either a described block or a
      closed fence, so every fenced file ends with the closing fence; and
      every envelope still holds the path and the content. */
  lemma FencesClosedIntended(ext: string, p: string, content: string)
    ensures var env := Lookup(ChainIntended, ext);
            env.Describe? || (env.Fence? && EndsWith(FormatIntended(ext, p, content), "\n```"))
    ensures Contains(FormatIntended(ext, p, content), p) && Contains(FormatIntended(ext, p, content), content)
  {
    var env := Lookup(ChainIntended, ext);
    LookupIn(ChainIntended, ext);
    OnlyTsxOpen();
    ChainKeysDistinct();
    assert forall j :: 0 <= j < |Chain| - 1 ==> ChainIntended[j] == Chain[j];
    WrapHolds(env, p, content);
  }

  /** The intended chain differs from the chain as written only in the
      `.tsx` branch. */
  lemma IntendedOnlyTsx(ext: string, p: string, content: string)
    requires ext != ".tsx"
    ensures FormatIntended(ext, p, content) == Format(ext, p, content)
  {
    ChainKeysDistinct();
    var n := |Chain| - 1;
    assert forall j :: 0 <= j < n ==> ChainIntended[j] == Chain[j];
    if i :| 0 <= i < n && Chain[i].0 == ext {
      LookupFirst(Chain, ext, i);
      LookupFirst(ChainIntended, ext, i);
    } else {
      LookupMissing(Chain, ext);
      LookupMissing(ChainIntended, ext);
    }
  }

  // ---------------------------------------------------------------------
  // The walk

  /** A file the walk reports, with what reading it returned. */
  datatype LocalFile = LocalFile(name: string, content: string)

  /** One triple of `os.walk`: the directory, relative to the walked root
      (`""` for the root itself), and its files; the subdirectory names only
      steer the walk and are not used. */
  datatype WalkStep = WalkStep(root: string, files: seq<LocalFile>)

  /** A `{"FormattedContent": ...}` record. */
  datatype Entry = Entry(formattedContent: string)

  /** `os.path.relpath(os.path.join(root, file), repo_path)`. */
  function RelPath(root: string, name: string): string
  {
    if root == "" then name else root + "/" + name
  }

  /** The record written for one file. */
  function FormatFile(root: string, f: LocalFile): Entry
  {
    var rel := RelPath(root, f.name);
    Entry(Format(Extension(rel), rel, f.content))
  }

  /** How a file, with the directory it is listed in, becomes a record. */
  type Formatter = (string, LocalFile) -> Entry

  /** The records of the files of one directory, in order. */
  function StepEntries(format: Formatter, root: string, files: seq<LocalFile>): seq<Entry>
  {
    if files == [] then []
    else StepEntries(format, root, files[..|files| - 1]) + [format(root, files[|files| - 1])]
  }

  /** The records of a whole walk, directory after directory. */
  function Entries(format: Formatter, walk: seq<WalkStep>): seq<Entry>
  {
    if walk == [] then [] else StepEntries(format, walk[0].root, walk[0].files) + Entries(format, walk[1..])
  }

  /** Every file of the walk with the directory it is listed in, in walk order. */
  function Files(walk: seq<WalkStep>): seq<(string, LocalFile)>
  {
    if walk == [] then []
    else
      seq(|walk[0].files|, k requires 0 <= k < |walk[0].files| => (walk[0].root, walk[0].files[k]))
      + Files(walk[1..])
  }

  /** The records of one more file of a directory. */
  lemma StepEntriesPrefix(format: Formatter, root: string, files: seq<LocalFile>, j: nat)
    requires j < |files|
    ensures StepEntries(format, root, files[..j + 1])
            == StepEntries(format, root, files[..j]) + [format(root, files[j])]
  {
    assert files[..j + 1][..j] == files[..j];
  }

  /** One record per file of a directory; the k-th is that of the k-th file. */
  lemma {:induction false} StepEntriesPerFile(format: Formatter, root: string, files: seq<LocalFile>)
    ensures |StepEntries(format, root, files)| == |files|
    ensures forall k :: 0 <= k < |files| ==> StepEntries(format, root, files)[k] == format(root, files[k])
  {
    if files != [] {
      var init := files[..|files| - 1];
      StepEntriesPerFile(format, root, init);
      assert forall k :: 0 <= k < |init| ==> init[k] == files[k];
    }
  }

  /** One record per file of the walk, in walk order; the k-th record is
      that of the k-th file. */
  lemma {:induction false} EntriesPerFile(format: Formatter, walk: seq<WalkStep>)
    ensures |Entries(format, walk)| == |Files(walk)|
    ensures forall k :: 0 <= k < |Files(walk)| ==> Entries(format, walk)[k] == format(Files(walk)[k].0, Files(walk)[k].1)
  {
    if walk != [] {
      EntriesPerFile(format, walk[1..]);
      StepEntriesPerFile(format, walk[0].root, walk[0].files);
    }
  }

  /** What `process_local_repo` collects: one record per file of the walk,
      in walk order, the k-th being the envelope of the k-th file chosen by
      the extension of its path relative to the walked root. */
  lemma RecordPerFile(walk: seq<WalkStep>)
    ensures |Entries(FormatFile, walk)| == |Files(walk)|
    ensures forall k :: 0 <= k < |Files(walk)| ==>
              var (root, f) := Files(walk)[k];
              var rel := RelPath(root, f.name);
              Entries(FormatFile, walk)[k] == Entry(Format(Extension(rel), rel, f.content))
  {
    EntriesPerFile(FormatFile, walk);
  }

  /** `process_local_repo` collects into a list that is created once, so
      every call in one run appends to the same list. */
  class LocalCollector {
    var paths: seq<Entry>

    constructor ()
      ensures paths == []
    {
      paths := [];
    }

    /** `process_local_repo` over the triples `os.walk` yields. */
    method ProcessLocalRepo(walk: seq<WalkStep>)
      modifies this
      ensures paths == old(paths) + Entries(FormatFile, walk)
    {
      assert walk[0..] == walk;
      for i := 0 to |walk|
        invariant paths + Entries(FormatFile, walk[i..]) == old(paths) + Entries(FormatFile, walk)
      {
        ghost var before := paths;
        ghost var rest := Entries(FormatFile, walk[i + 1..]);
        ProcessFiles(walk[i]);
        assert walk[i..][1..] == walk[i + 1..];
        AppendAssoc(before, StepEntries(FormatFile, walk[i].root, walk[i].files), rest);
      }
    }

    /** The inner loop of `process_local_repo`: one record per file of one
        directory, in order. */
    method ProcessFiles(step: WalkStep)
      modifies this
      ensures paths == old(paths) + StepEntries(FormatFile, step.root, step.files)
    {
      for j := 0 to |step.files|
        invariant paths == old(paths) + StepEntries(FormatFile, step.root, step.files[..j])
      {
        var relativePath := RelPath(step.root, step.files[j].name);
        var extension := Extension(relativePath);
        var formattedContent := Format(extension, relativePath, step.files[j].content);
        StepEntriesPrefix(FormatFile, step.root, step.files, j);
        paths := paths + [Entry(formattedContent)];
      }
      assert step.files[..|step.files|] == step.files;
    }
  }

  /** The `FormattedContent` of each record. */
  function FormattedContents(data: seq<Entry>): seq<string>
  {
    seq(|data|, k requires 0 <= k < |data| => data[k].formattedContent)
  }

  /** `write_to_csv`: one single-field row per record, in order. */
  method WriteToCsv(data: seq<Entry>) returns (rows: seq<seq<string>>)
    ensures rows == Corpus.Rows(FormattedContents(data))
  {
    rows := [];
    for i := 0 to |data|
      invariant rows == Corpus.Rows(FormattedContents(data[..i]))
    {
      rows := rows + [[data[i].formattedContent]];
    }
    assert data[..|data|] == data;
  }

  /** The script's main block, with the walk of the given directory as
      `walk`: the rows of the file are the records' envelopes. */
  method Export(walk: seq<WalkStep>) returns (rows: seq<seq<string>>)
    ensures rows == Corpus.Rows(FormattedContents(Entries(FormatFile, walk)))
  {
    var collector := new LocalCollector();
    collector.ProcessLocalRepo(walk);
    rows := WriteToCsv(collector.paths);
  }
}
