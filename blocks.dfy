/**
 * The text envelopes the scripts wrap each file's content in before it is
 * written to the corpus: a described block
 * `The following ... located at {path}\n------\n{content}\n------`
 * and a fenced code block ```` ```{tag}:{path}\n{content}\n``` ````.
 */
module Blocks {
  import opened Strings

  const DocumentHeader: string := "The following document is located at "
  const MarkdownHeader: string := "The following is a markdown document located at "
  const PlainTextHeader: string := "The following is a plain text file located at "
  const PythonHeader: string := "The following is a python document located at "

  /** The line that separates the header and the content, and closes the block. */
  const Rule: string := "------"

  /** `{header}{path}\n------\n{content}\n------`. */
  function Described(header: string, path: string, content: string): string
  {
    header + path + "\n" + Rule + "\n" + content + "\n" + Rule
  }

  /** ```` ```{tag}:{path}\n{content}\n``` ````. */
  function Fenced(tag: string, path: string, content: string): string
  {
    "```" + tag + ":" + path + "\n" + content + "\n```"
  }

  /** The fenced opening without the closing fence. */
  function OpenFenced(tag: string, path: string, content: string): string
  {
    "```" + tag + ":" + path + "\n" + content
  }

  /** A described block is never empty and holds the path and the content
      verbatim, each at a fixed place after the header. */
  lemma DescribedHolds(header: string, path: string, content: string)
    ensures var b := Described(header, path, content);
            && |b| == |header| + |path| + |content| + 2 * |Rule| + 3
            && OccursAt(b, path, |header|)
            && OccursAt(b, content, |header| + |path| + |Rule| + 2)
            && Contains(b, path) && Contains(b, content)
  {
    var b := Described(header, path, content);
    var k := |header| + |path| + |Rule| + 2;
    assert b[|header|..|header| + |path|] == path;
    assert b[k..k + |content|] == content;
    assert OccursAt(b, path, |header|);
    assert OccursAt(b, content, k);
  }

  /** A fenced block is never empty, holds the path and the content verbatim
      and ends with the closing fence. */
  lemma FencedHolds(tag: string, path: string, content: string)
    ensures var b := Fenced(tag, path, content);
            && OccursAt(b, path, |tag| + 4)
            && OccursAt(b, content, |tag| + |path| + 5)
            && Contains(b, path) && Contains(b, content)
            && EndsWith(b, "\n```")
  {
    var b := Fenced(tag, path, content);
    var k := |tag| + |path| + 5;
    assert b[|tag| + 4..|tag| + 4 + |path|] == path;
    assert b[k..k + |content|] == content;
    assert OccursAt(b, path, |tag| + 4);
    assert OccursAt(b, content, k);
  }

  /** An open fenced block is never empty and holds the path and the content
      verbatim; it ends with the content itself. */
  lemma OpenFencedHolds(tag: string, path: string, content: string)
    ensures var b := OpenFenced(tag, path, content);
            && |b| > 0
            && OccursAt(b, path, |tag| + 4)
            && Contains(b, path) && Contains(b, content)
            && EndsWith(b, content)
  {
    var b := OpenFenced(tag, path, content);
    var k := |tag| + |path| + 5;
    assert b[|tag| + 4..|tag| + 4 + |path|] == path;
    assert b[k..k + |content|] == content;
    assert OccursAt(b, path, |tag| + 4);
    assert OccursAt(b, content, k);
  }
}
