/**
 * The `content` collection as the server-side query engine hands it out:
 * one record per markdown file, its front matter and its parsed body.
 */
module Collection {
  import opened Strings
  import opened Query

  /**
   * A node of the parsed markdown tree. `hasChildren` says whether the node
   * carries a `children` array at all (any array, even an empty one, is
   * truthy); `children` is that array, and means nothing when it is absent.
   */
  datatype Node = Node(kind: string, value: Option<string>, hasChildren: bool, children: seq<Node>)

  /** The shape `post.body` may take: absent, a plain string, or a parsed tree with or without `children`. */
  datatype Body = NoBody | StringBody(text: string) | TreeBody(hasChildren: bool, children: seq<Node>)

  /**
   * A record of the `content` collection as the server reads it. `path`,
   * `legacyPath` and `legacyId` are `path`, `_path` and `_id`; `date` is
   * absent when the record has none.
   */
  datatype Record = Record(
    path: Option<string>,
    legacyPath: Option<string>,
    legacyId: Option<string>,
    title: Option<string>,
    description: Option<string>,
    date: Option<int>,
    draft: bool,
    body: Body)

  /** The collections of the content store, by name; querying a name it lacks fails. */
  type Store = map<string, seq<Record>>

  /** A record's date as the query orders it; a record without one sorts last. */
  function StampOf(r: Record): Stamp {
    if r.date.Some? then At(r.date.value) else Undated
  }

  /** The filter `draft = false`. */
  predicate IsPublished(r: Record) {
    !r.draft
  }
}
