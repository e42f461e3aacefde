/** The shapes of the Notion API objects the sync scripts read: pages with
    named, typed properties, and blocks. A field is `Some` when the object
    carries it; JavaScript truthiness tests become explicit predicates. */
module NotionModel {
  import opened Wrappers
  import opened Text

  /** One rich-text run; only its `plain_text` is ever read. */
  datatype RichText = RichText(plainText: string)

  /** A file of a files-type property: hosted by Notion (`file.url`) or
      external (`external.url`). */
  datatype FileRef = FileRef(name: Option<string>, hosted: Option<string>, external: Option<string>)

  /** One property value. Each field is present when the property object has
      it: `title`, `rich_text`, `relation` (the related page IDs),
      `created_time`, `date.start`, `multi_select` (option names), `files` and
      `select.name`. */
  datatype Property = Property(
    title: Option<seq<RichText>>,
    richText: Option<seq<RichText>>,
    relation: Option<seq<string>>,
    createdTime: Option<string>,
    dateStart: Option<string>,
    multiSelect: Option<seq<string>>,
    files: Option<seq<FileRef>>,
    selectName: Option<string>)

  /** The properties of a page, in `Object.entries` order. */
  type Props = seq<(string, Property)>

  /** A database page (a post, or a tag page reached through a relation). */
  datatype Page = Page(id: string, lastEditedTime: Option<string>, properties: Props)

  /** `properties[name]`. Property names of a page are distinct, so the first
      entry with the name is the one. */
  function Get(props: Props, name: string): (r: Option<Property>)
    ensures r.Some? ==> exists k :: 0 <= k < |props| && props[k] == (name, r.value)
    ensures r.None? ==> forall k :: 0 <= k < |props| ==> props[k].0 != name
  {
    if |props| == 0 then None
    else if props[0].0 == name then Some(props[0].1)
    else Get(props[1..], name)
  }

  /** The entries of a property object have distinct names. */
  predicate DistinctNames(props: Props) {
    forall i, j :: 0 <= i < j < |props| ==> props[i].0 != props[j].0
  }

  /** `p?.title && p.title.length > 0 ? p.title[0].plain_text : undefined`. */
  function TitleText(p: Option<Property>): Option<string>
  {
    if p.Some? && p.value.title.Some? && |p.value.title.value| > 0
    then Some(p.value.title.value[0].plainText) else None
  }

  /** The same test on the `rich_text` array. */
  function RichTextText(p: Option<Property>): Option<string>
  {
    if p.Some? && p.value.richText.Some? && |p.value.richText.value| > 0
    then Some(p.value.richText.value[0].plainText) else None
  }

  const Untitled: string := "Untitled"

  /** The post title: the first `plain_text` of `Title`, else of `Name`, else
      `'Untitled'`. Used alike by the client, the sync scripts and both
      front-matter generators. */
  function ExtractPostTitle(props: Props): (r: string)
    ensures TitleText(Get(props, "Title")).Some? ==> r == TitleText(Get(props, "Title")).value
    ensures TitleText(Get(props, "Title")).None? && TitleText(Get(props, "Name")).Some? ==>
              r == TitleText(Get(props, "Name")).value
    ensures TitleText(Get(props, "Title")).None? && TitleText(Get(props, "Name")).None? ==>
              r == Untitled
  {
    match TitleText(Get(props, "Title"))
    case Some(t) => t
    case None =>
      match TitleText(Get(props, "Name"))
      case Some(t) => t
      case None => Untitled
  }

  /** Process environment: variable name to value. */
  type Env = map<string, string>

  /** `process.env[name]` is truthy. */
  predicate IsSet(env: Env, name: string) {
    name in env && env[name] != []
  }

  /** The `url` field a block payload may hold. */
  datatype UrlHolder = UrlHolder(url: Option<string>)

  /** The `image` payload of an image block: its `type` and the object named
      by it. */
  datatype ImagePayload = ImagePayload(kind: Option<string>, external: Option<UrlHolder>, file: Option<UrlHolder>)

  /** The type-specific payload of a block. Types without a custom rule are
      kept by name only. */
  datatype BlockContent =
    | Code(language: Option<string>, codeText: seq<RichText>)
    | Quote(quoteText: seq<RichText>)
    | Callout(iconEmoji: Option<string>, calloutText: seq<RichText>)
    | Divider
    | Table
    | Image(image: Option<ImagePayload>)
    | Embed(embed: Option<UrlHolder>)
    | Other(kind: string)

  /** A block as one page of `blocks.children.list` returns it. */
  datatype RawBlock = RawBlock(id: string, hasChildren: bool, content: BlockContent)

  /** The `children` field of a fetched block: absent, or the attached
      child blocks. */
  datatype Children = Absent | Attached(kids: seq<Block>)

  /** A block of a fetched tree: `children` is attached exactly to the blocks
      flagged `has_children`. */
  datatype Block = Block(id: string, hasChildren: bool, content: BlockContent, children: Children)

  /** The concatenated `plain_text` of rich-text runs. */
  function PlainText(rs: seq<RichText>): (r: string)
    ensures |rs| == 0 ==> r == []
  {
    if |rs| == 0 then [] else rs[0].plainText + PlainText(rs[1..])
  }
}
