/**
 * `github_parser.py`: walks a remote repository and writes every
 * non-directory item as a described document.
 */
module GithubParser {
  import opened Wrappers
  import opened Blocks
  import opened RepoWalk
  import GithubUrl
  import Corpus

  /** The list `process_contents` appends to. Its default value is created
      once, so every top-level call in one run appends to the same list. */
  class ContentsCollector {
    var paths: seq<string>

    constructor ()
      ensures paths == []
    {
      paths := [];
    }

    /** `process_contents` over an already fetched listing: a directory is
        entered with `path + "/"` as its parent path, any other item is
        appended as a described document. */
    method ProcessContents(contents: seq<Item>, parentPath: string)
      modifies this
      ensures paths == old(paths) + Walk(AllDocuments, contents, parentPath)
      decreases contents
    {
      var i := 0;
      while i < |contents|
        invariant 0 <= i <= |contents|
        invariant paths == old(paths) + Walk(AllDocuments, contents[..i], parentPath)
      {
        var item := contents[i];
        var path := parentPath + item.name;
        var before := paths;
        if item.Dir? {
          ProcessContents(item.children, path + "/");
        } else {
          var formatted := Described(DocumentHeader, path, item.content);
          paths := paths + [formatted];
        }
        assert paths == before + WalkItem(AllDocuments, item, parentPath);
        WalkPrefix(AllDocuments, contents, i, parentPath);
        i := i + 1;
      }
      assert contents[..i] == contents;
    }
  }

  /** The script's main block, with the listing the contents address returns
      given as `listing`: an address error ends the run with no file written,
      otherwise the walk's documents are the rows of the file. */
  method Export(repoUrl: string, listing: seq<Item>) returns (r: Result<seq<seq<string>>, GithubUrl.UrlError>)
    ensures r.Err? <==> GithubUrl.GetContentsUrl(repoUrl).Err?
    ensures r.Err? ==> r.error == GithubUrl.GetContentsUrl(repoUrl).error
    ensures r.Ok? ==> r.value == Corpus.Rows(Walk(AllDocuments, listing, ""))
  {
    var api := GithubUrl.GetContentsUrl(repoUrl);
    if api.Err? {
      return Err(api.error);
    }
    var collector := new ContentsCollector();
    collector.ProcessContents(listing, "");
    var rows := Corpus.WriteToCsv(collector.paths);
    return Ok(rows);
  }

  /** The script writes one document per non-directory item of the tree, in
      depth-first listing order, each naming the item's full path. */
  lemma OneDocumentPerLeaf(items: seq<Item>, parent: string)
    ensures Walk(AllDocuments, items, parent) == Docs(AllDocuments, parent, Leaves(items, []))
    ensures |Walk(AllDocuments, items, parent)| == |Leaves(items, [])|
  {
    WalkDocuments(AllDocuments, items, parent);
    FilterNone(Leaves(items, []));
    ChosenAll(parent, Leaves(items, []));
  }
}
