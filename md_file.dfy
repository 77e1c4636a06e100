/**
 * `md_file.py`: walks a remote repository, not entering directories whose
 * name is excluded, and writes every `.md` file as a markdown document. Its
 * main block always excludes the directory name `cn`.
 */
module MdFile {
  import opened Wrappers
  import opened Strings
  import opened Blocks
  import opened RepoWalk
  import GithubUrl
  import Corpus

  /** The folder names the main block excludes. */
  const CommandLineExclude: seq<string> := ["cn"]

  /** The list `process_contents` appends to, shared by every top-level call
      in one run. */
  class ContentsCollector {
    var paths: seq<string>

    constructor ()
      ensures paths == []
    {
      paths := [];
    }

    /** `process_contents` over an already fetched listing: a directory that
        is not excluded is entered with `path + "/"` as its parent path, a
        file whose path ends with `.md` is appended as a markdown document,
        and anything else (an excluded directory included) is passed over. */
    method ProcessContents(contents: seq<Item>, parentPath: string, excludeFolders: seq<string>)
      modifies this
      ensures paths == old(paths) + Walk(MarkdownFiles(excludeFolders), contents, parentPath)
      decreases contents
    {
      var v := MarkdownFiles(excludeFolders);
      var i := 0;
      while i < |contents|
        invariant 0 <= i <= |contents|
        invariant paths == old(paths) + Walk(v, contents[..i], parentPath)
      {
        var item := contents[i];
        var path := parentPath + item.name;
        var before := paths;
        if item.Dir? && item.name !in excludeFolders {
          ProcessContents(item.children, path + "/", excludeFolders);
        } else if item.File? && EndsWith(path, ".md") {
          var formatted := Described(MarkdownHeader, path, item.content);
          paths := paths + [formatted];
        }
        assert paths == before + WalkItem(v, item, parentPath);
        WalkPrefix(v, contents, i, parentPath);
        i := i + 1;
      }
      assert contents[..i] == contents;
    }
  }

  /** The script's main block, with the listing the contents address returns
      given as `listing`; the excluded names are `CommandLineExclude`. */
  method Export(repoUrl: string, listing: seq<Item>) returns (r: Result<seq<seq<string>>, GithubUrl.UrlError>)
    ensures r.Err? <==> GithubUrl.GetContentsUrl(repoUrl).Err?
    ensures r.Err? ==> r.error == GithubUrl.GetContentsUrl(repoUrl).error
    ensures r.Ok? ==> r.value == Corpus.Rows(Walk(MarkdownFiles(["cn"]), listing, ""))
  {
    var api := GithubUrl.GetContentsUrl(repoUrl);
    if api.Err? {
      return Err(api.error);
    }
    var collector := new ContentsCollector();
    collector.ProcessContents(listing, "", CommandLineExclude);
    var rows := Corpus.WriteToCsv(collector.paths);
    return Ok(rows);
  }

  /** The documents written are exactly those of the files of the tree whose
      path ends with `.md` and that have no excluded directory name above
      them at any depth, in depth-first listing order. */
  lemma MarkdownDocuments(items: seq<Item>, parent: string, exclude: seq<string>)
    ensures var all := Leaves(items, []);
            var ch := Chosen(MarkdownFiles(exclude), parent, Filter(all, exclude));
            && Walk(MarkdownFiles(exclude), items, parent) == Docs(MarkdownFiles(exclude), parent, ch)
            && (forall k :: 0 <= k < |ch| ==>
                  && ch[k] in all && ch[k].isFile && Clean(ch[k], exclude)
                  && EndsWith(PathOf(parent, ch[k]), ".md"))
            && (forall k :: 0 <= k < |all| ==>
                  all[k].isFile && Clean(all[k], exclude) && EndsWith(PathOf(parent, all[k]), ".md")
                  ==> all[k] in ch)
  {
    var v := MarkdownFiles(exclude);
    var all := Leaves(items, []);
    var kept := Filter(all, exclude);
    var ch := Chosen(v, parent, kept);
    WalkDocuments(v, items, parent);
    forall k | 0 <= k < |all| && all[k].isFile && Clean(all[k], exclude)
                && EndsWith(PathOf(parent, all[k]), ".md")
      ensures all[k] in ch
    {
      assert all[k] in kept;
      var j :| 0 <= j < |kept| && kept[j] == all[k];
      assert Wanted(v, parent, kept[j]);
    }
  }

  /** Under the main block's exclusion no document comes from beneath a
      directory named `cn`, at any depth, and a `cn` directory listed
      anywhere contributes nothing. */
  lemma CnNeverEntered(items: seq<Item>, parent: string, children: seq<Item>)
    ensures var ch := Chosen(MarkdownFiles(CommandLineExclude), parent,
                             Filter(Leaves(items, []), CommandLineExclude));
            forall k, j :: 0 <= k < |ch| && 0 <= j < |ch[k].dirs| ==> ch[k].dirs[j] != "cn"
    ensures WalkItem(MarkdownFiles(CommandLineExclude), Dir("cn", children), parent) == []
  {
    var v := MarkdownFiles(CommandLineExclude);
    var ch := Chosen(v, parent, Filter(Leaves(items, []), CommandLineExclude));
    forall k, j | 0 <= k < |ch| && 0 <= j < |ch[k].dirs| ensures ch[k].dirs[j] != "cn" {
      assert Clean(ch[k], CommandLineExclude);
      assert ch[k].dirs[j] !in CommandLineExclude;
    }
    assert "cn" in CommandLineExclude;
  }
}
