/**
 * The markdown editor's toolbar insertion: the selection `[start, end)` of the text is replaced by
 * a template, or wrapped in it for bold, italic, link, inline code and code block, and the cursor
 * is put on the template's `url` placeholder or after the inserted text. Keyboard shortcuts, drop
 * and paste go through the same insertion.
 */
module MarkdownEditor {
  import opened Wrappers
  import opened JsText

  const InitialMarkdown := "# Hello Markdown\n\n开始编写你的文档..."

  const BoldTemplate := "**粗体**"
  const ItalicTemplate := "*斜体*"
  const InlineCodeTemplate := "`代码`"
  const LinkTemplate := "[链接](url)"
  const CodeBlockTemplate := "```\n代码块\n```"

  /** The toolbar's templates, in button order. */
  const Toolbar: seq<string> := [
    "# ", "## ", "### ", BoldTemplate, ItalicTemplate, InlineCodeTemplate, "> 引用\n",
    LinkTemplate, "![图片](url)", "- 列表项\n", "1. 列表项\n", "- [ ] 任务\n",
    "| 列1 | 列2 |\n|------|------|\n| 内容1 | 内容2 |", CodeBlockTemplate
  ]

  /** The placeholder the cursor is moved to. */
  const Placeholder := "url"
  const Fence := "```"

  predicate StartsWith(s: string, prefix: string) {
    |prefix| <= |s| && s[..|prefix|] == prefix
  }

  /**
   * The text a template puts around a non-empty selection, for the templates that wrap one; the
   * checks are made in the order the editor makes them.
   */
  function Wrapper(template: string): Option<(string, string)> {
    if template == BoldTemplate then Some(("**", "**"))
    else if template == ItalicTemplate then Some(("*", "*"))
    else if template == LinkTemplate then Some(("[", "](url)"))
    else if template == InlineCodeTemplate then Some(("`", "`"))
    else if StartsWith(template, Fence) then Some(("```\n", "\n```"))
    else None
  }

  /** The text inserted for `template` when `selected` is selected. */
  function NewText(template: string, selected: string): (r: string)
    ensures selected == [] || Wrapper(template).None? ==> r == template
    ensures selected != [] && Wrapper(template).Some? ==>
      var (open, close) := Wrapper(template).value;
      |r| == |open| + |selected| + |close| && r[|open|..|open| + |selected|] == selected
  {
    if selected != [] && Wrapper(template).Some? then
      var (open, close) := Wrapper(template).value;
      var r := open + selected + close;
      assert r[|open|..|open| + |selected|] == selected;
      r
    else template
  }

  /** Bold, italic, link and inline code wrap a non-empty selection; so does every fenced template. */
  lemma WrappingTemplates(selected: string)
    requires selected != []
    ensures NewText(BoldTemplate, selected) == "**" + selected + "**"
    ensures NewText(ItalicTemplate, selected) == "*" + selected + "*"
    ensures NewText(LinkTemplate, selected) == "[" + selected + "](url)"
    ensures NewText(InlineCodeTemplate, selected) == "`" + selected + "`"
    ensures NewText(CodeBlockTemplate, selected) == "```\n" + selected + "\n```"
  {
    assert CodeBlockTemplate[..3] == Fence;
  }

  /** The toolbar templates other than those five replace the selection. */
  lemma ReplacingTemplates(selected: string, k: nat)
    requires k < |Toolbar| && k !in {3, 4, 5, 7, 13}
    ensures NewText(Toolbar[k], selected) == Toolbar[k]
  {
    var t := Toolbar[k];
    assert t != [] && t[0] != '`';
    assert t != BoldTemplate && t != ItalicTemplate && t != LinkTemplate && t != InlineCodeTemplate;
    assert !StartsWith(t, Fence) by {
      if |Fence| <= |t| {
        assert t[..3][0] == t[0];
      }
    }
  }

  /** What an insertion produces: the new text and the cursor position. */
  datatype Insertion = Insertion(markdown: string, cursor: int)

  /** `insertText(template)` on `text` with the selection `[start, end)`. */
  function Insert(text: string, start: nat, end: nat, template: string): (r: Insertion)
    requires start <= end <= |text|
    ensures var nt := NewText(template, text[start..end]);
      r.markdown == text[..start] + nt + text[end..]
  {
    var nt := NewText(template, text[start..end]);
    Insertion(text[..start] + nt + text[end..], start + CursorOffset(template, nt))
  }

  /** Where the cursor goes, counted from the start of the inserted text `nt`. */
  function CursorOffset(template: string, nt: string): int {
    if Contains(template, Placeholder) then IndexOf(nt, Placeholder) else |nt|
  }

  /**
   * Within the inserted text, the cursor is on its first `url` when the template holds `url`, and at
   * its end otherwise (fenced templates containing `url`, which no button, shortcut, drop or paste
   * produces, are set aside).
   */
  lemma {:induction false} CursorOffsetPlacement(template: string, selected: string)
    requires !(StartsWith(template, Fence) && Contains(template, Placeholder))
    ensures var nt := NewText(template, selected);
      var c := CursorOffset(template, nt);
      && 0 <= c <= |nt|
      && (Contains(template, Placeholder) ==>
            OccursAt(nt, Placeholder, c) && forall j :: 0 <= j < c ==> !OccursAt(nt, Placeholder, j))
      && (!Contains(template, Placeholder) ==> c == |nt|)
  {
    var nt := NewText(template, selected);
    if Contains(template, Placeholder) {
      var at: int;
      if selected != [] && Wrapper(template).Some? {
        PlaceholderOnlyInLink(template);
        assert nt == "[" + selected + "](url)";
        at := |selected| + 3;
        LinkTextPlaceholder(selected);
      } else {
        at := IndexOf(template, Placeholder);
      }
      assert OccursAt(nt, Placeholder, at);
    }
  }

  /** A wrapped link holds `url` right after the selection and the `](`. */
  lemma LinkTextPlaceholder(selected: string)
    ensures OccursAt("[" + selected + "](url)", Placeholder, |selected| + 3)
  {
    var nt := "[" + selected + "](url)";
    assert nt[|selected| + 3..|selected| + 6] == Placeholder;
  }

  /** Text before the selection and after it is kept; the length changes by what was inserted minus what was selected. */
  lemma InsertKeepsContext(text: string, start: nat, end: nat, template: string)
    requires start <= end <= |text|
    ensures var nt := NewText(template, text[start..end]);
      var m := Insert(text, start, end, template).markdown;
      && |m| == |text| - (end - start) + |nt|
      && m[..start] == text[..start]
      && m[start..start + |nt|] == nt
      && m[start + |nt|..] == text[end..]
  {
    var nt := NewText(template, text[start..end]);
    var m := Insert(text, start, end, template).markdown;
    assert m == text[..start] + nt + text[end..];
    assert m[..start] == text[..start];
    assert m[start..start + |nt|] == nt;
    assert m[start + |nt|..] == text[end..];
  }

  /** With nothing selected the template goes in as it is, at the cursor. */
  lemma InsertAtCaret(text: string, at: nat, template: string)
    requires at <= |text|
    ensures Insert(text, at, at, template).markdown == text[..at] + template + text[at..]
  {
    assert text[at..at] == [];
  }

  /**
   * In the whole text, the cursor lies within the inserted text; when the template holds `url` it
   * sits on a `url`, the first one the inserted text has.
   */
  lemma CursorPlacement(text: string, start: nat, end: nat, template: string)
    requires start <= end <= |text|
    requires !(StartsWith(template, Fence) && Contains(template, Placeholder))
    ensures var nt := NewText(template, text[start..end]);
      var r := Insert(text, start, end, template);
      && start <= r.cursor <= start + |nt|
      && (Contains(template, Placeholder) ==> OccursAt(r.markdown, Placeholder, r.cursor))
  {
    var nt := NewText(template, text[start..end]);
    var r := Insert(text, start, end, template);
    CursorOffsetPlacement(template, text[start..end]);
    InsertKeepsContext(text, start, end, template);
    if Contains(template, Placeholder) {
      var i := CursorOffset(template, nt);
      assert r.markdown[start..start + |nt|] == nt;
      assert r.markdown[start + i..start + i + 3] == nt[i..i + 3];
    }
  }

  /** Of the templates that wrap, only the link template (and fenced ones) contain `url`. */
  lemma PlaceholderOnlyInLink(template: string)
    requires Wrapper(template).Some? && !StartsWith(template, Fence)
    requires Contains(template, Placeholder)
    ensures template == LinkTemplate
  {
    if template == BoldTemplate || template == ItalicTemplate || template == InlineCodeTemplate {
      NoPlaceholder(template);
    }
  }

  lemma NoPlaceholder(template: string)
    requires template == BoldTemplate || template == ItalicTemplate || template == InlineCodeTemplate
    ensures !Contains(template, Placeholder)
  {
    assert 'u' !in template;
    forall k | 0 <= k ensures !OccursAt(template, Placeholder, k) {
      if k + 3 <= |template| {
        assert template[k..k + 3][0] == template[k];
        assert template[k] in template;
      }
    }
  }

  // ---- keyboard shortcuts ----

  /** `handleKeyDown`: with Ctrl or Cmd held, `b`, `i` and `k` insert bold, italic and link. */
  function ShortcutTemplate(ctrl: bool, meta: bool, key: string): (r: Option<string>)
    ensures r.Some? ==> (ctrl || meta) && r.value in Toolbar
  {
    if !(ctrl || meta) then None
    else if key == "b" then Some(BoldTemplate)
    else if key == "i" then Some(ItalicTemplate)
    else if key == "k" then Some(LinkTemplate)
    else None
  }

  /** Any other key, or no modifier, does nothing. */
  lemma ShortcutKeys(ctrl: bool, meta: bool, key: string)
    ensures (ctrl || meta) && key == "b" <==> ShortcutTemplate(ctrl, meta, key) == Some(BoldTemplate)
    ensures (ctrl || meta) && key == "i" <==> ShortcutTemplate(ctrl, meta, key) == Some(ItalicTemplate)
    ensures (ctrl || meta) && key == "k" <==> ShortcutTemplate(ctrl, meta, key) == Some(LinkTemplate)
    ensures ShortcutTemplate(ctrl, meta, key).None? <==> !(ctrl || meta) || key !in {"b", "i", "k"}
  {
  }

  /** The template a dropped or pasted image is inserted with. */
  function ImageTemplate(name: string, dataUrl: string): string {
    "![" + name + "](" + dataUrl + ")"
  }

  const PastedImageName := "粘贴的图片"

  // ---- the editor ----

  /** The editor's state: the text and whether the "write" tab, which holds the text area, is open. */
  class Editor {
    var markdown: string
    var writeTab: bool

    constructor ()
      ensures markdown == InitialMarkdown && writeTab
    {
      markdown := InitialMarkdown;
      writeTab := true;
    }

    /**
     * `insertText`, with the text area's selection as parameters. Without the text area (the preview
     * tab is open) nothing happens; otherwise the text is spliced and the new cursor returned.
     */
    method InsertText(template: string, start: nat, end: nat) returns (cursor: Option<int>)
      requires start <= end <= |markdown|
      modifies this
      ensures writeTab == old(writeTab)
      ensures !writeTab ==> markdown == old(markdown) && cursor == None
      ensures writeTab ==>
        var r := Insert(old(markdown), start, end, template);
        markdown == r.markdown && cursor == Some(r.cursor)
    {
      if !writeTab {
        return None;
      }
      var r := Insert(markdown, start, end, template);
      markdown := r.markdown;
      cursor := Some(r.cursor);
    }

    /** `handleKeyDown`. */
    method HandleKeyDown(ctrl: bool, meta: bool, key: string, start: nat, end: nat) returns (cursor: Option<int>)
      requires start <= end <= |markdown|
      modifies this
      ensures writeTab == old(writeTab)
      ensures ShortcutTemplate(ctrl, meta, key).None? ==> markdown == old(markdown) && cursor == None
      ensures ShortcutTemplate(ctrl, meta, key).Some? && !writeTab ==> markdown == old(markdown) && cursor == None
      ensures ShortcutTemplate(ctrl, meta, key).Some? && writeTab ==>
        var r := Insert(old(markdown), start, end, ShortcutTemplate(ctrl, meta, key).value);
        markdown == r.markdown && cursor == Some(r.cursor)
    {
      cursor := None;
      var template := ShortcutTemplate(ctrl, meta, key);
      if template.Some? {
        cursor := InsertText(template.value, start, end);
      }
    }

    /** A dropped image file, once read: its name and data URL inserted as an image. */
    method DropImage(name: string, dataUrl: string, start: nat, end: nat) returns (cursor: Option<int>)
      requires start <= end <= |markdown|
      modifies this
      ensures writeTab == old(writeTab)
      ensures writeTab ==> markdown == Insert(old(markdown), start, end, ImageTemplate(name, dataUrl)).markdown
      ensures !writeTab ==> markdown == old(markdown)
    {
      cursor := InsertText(ImageTemplate(name, dataUrl), start, end);
    }

    /** A pasted image, once read: inserted under a fixed name. */
    method PasteImage(dataUrl: string, start: nat, end: nat) returns (cursor: Option<int>)
      requires start <= end <= |markdown|
      modifies this
      ensures writeTab == old(writeTab)
      ensures writeTab ==> markdown == Insert(old(markdown), start, end, ImageTemplate(PastedImageName, dataUrl)).markdown
      ensures !writeTab ==> markdown == old(markdown)
    {
      cursor := InsertText(ImageTemplate(PastedImageName, dataUrl), start, end);
    }

    /** The tab buttons. */
    method SetWriteTab(write: bool)
      modifies this
      ensures writeTab == write && markdown == old(markdown)
    {
      writeTab := write;
    }
  }
}
