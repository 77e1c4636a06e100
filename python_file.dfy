/**
 * `python_file.py`: walks a remote repository, skipping directories whose
 * name is excluded, and writes every `.py` file as a python document.
 */
module PythonFile {
  import opened Wrappers
  import opened Strings
  import opened Blocks
  import opened RepoWalk
  import GithubUrl
  import Corpus

  /** The list `process_contents` appends to, shared by every top-level call
      in one run. */
  class ContentsCollector {
    var paths: seq<string>

    constructor ()
      ensures paths == []
    {
      paths := [];
    }

    /** `process_contents` over an already fetched listing: an excluded
        directory is skipped, another directory is entered with `path + "/"`
        as its parent path, a file whose path ends with `.py` is appended as
        a python document, and anything else is passed over. */
    method ProcessContents(contents: seq<Item>, parentPath: string, excludeFolders: seq<string>)
      modifies this
      ensures paths == old(paths) + Walk(PythonFiles(excludeFolders), contents, parentPath)
      decreases contents
    {
      var v := PythonFiles(excludeFolders);
      var i := 0;
      while i < |contents|
        invariant 0 <= i <= |contents|
        invariant paths == old(paths) + Walk(v, contents[..i], parentPath)
      {
        var item := contents[i];
        var path := parentPath + item.name;
        var before := paths;
        if item.Dir? && item.name in excludeFolders {
          // skipped folder
        } else if item.Dir? {
          ProcessContents(item.children, path + "/", excludeFolders);
        } else if item.File? && EndsWith(path, ".py") {
          var formatted := Described(PythonHeader, path, item.content);
          paths := paths + [formatted];
        }
        assert paths == before + WalkItem(v, item, parentPath);
        WalkPrefix(v, contents, i, parentPath);
        i := i + 1;
      }
      assert contents[..i] == contents;
    }
  }

  /** The script's main block, with the `--exclude` names and the listing
      the contents address returns given as parameters. */
  method Export(repoUrl: string, exclude: seq<string>, listing: seq<Item>)
    returns (r: Result<seq<seq<string>>, GithubUrl.UrlError>)
    ensures r.Err? <==> GithubUrl.GetContentsUrl(repoUrl).Err?
    ensures r.Err? ==> r.error == GithubUrl.GetContentsUrl(repoUrl).error
    ensures r.Ok? ==> r.value == Corpus.Rows(Walk(PythonFiles(exclude), listing, ""))
  {
    var api := GithubUrl.GetContentsUrl(repoUrl);
    if api.Err? {
      return Err(api.error);
    }
    var collector := new ContentsCollector();
    collector.ProcessContents(listing, "", exclude);
    var rows := Corpus.WriteToCsv(collector.paths);
    return Ok(rows);
  }

  /** The documents written are exactly those of the files of the tree whose
      path ends with `.py` and that have no excluded directory name above
      them at any depth, in depth-first listing order. */
  lemma PythonDocuments(items: seq<Item>, parent: string, exclude: seq<string>)
    ensures var all := Leaves(items, []);
            var ch := Chosen(PythonFiles(exclude), parent, Filter(all, exclude));
            && Walk(PythonFiles(exclude), items, parent) == Docs(PythonFiles(exclude), parent, ch)
            && (forall k :: 0 <= k < |ch| ==>
                  && ch[k] in all && ch[k].isFile && Clean(ch[k], exclude)
                  && EndsWith(PathOf(parent, ch[k]), ".py"))
            && (forall k :: 0 <= k < |all| ==>
                  all[k].isFile && Clean(all[k], exclude) && EndsWith(PathOf(parent, all[k]), ".py")
                  ==> all[k] in ch)
  {
    var v := PythonFiles(exclude);
    var all := Leaves(items, []);
    var kept := Filter(all, exclude);
    var ch := Chosen(v, parent, kept);
    WalkDocuments(v, items, parent);
    forall k | 0 <= k < |all| && all[k].isFile && Clean(all[k], exclude)
                && EndsWith(PathOf(parent, all[k]), ".py")
      ensures all[k] in ch
    {
      assert all[k] in kept;
      var j :| 0 <= j < |kept| && kept[j] == all[k];
      assert Wanted(v, parent, kept[j]);
    }
  }
}
