/** The remote store's entities, as far as the link fixer looks at them. */
module Shop {
  import opened Wrappers

  /** One `<a href=...>` element of an article body, in document order: its
      `href` attribute when present, and its visible text with surrounding
      whitespace stripped (`get_text(strip=True)`). The rest of the markup is
      not modelled. */
  datatype Anchor = Anchor(href: Option<string>, text: string)

  /** An article as listed by the API: `id`, `title`, `handle` (which may be
      missing) and the anchors of its `body_html`. */
  datatype Article = Article(id: int, title: string, handle: Option<string>, body: seq<Anchor>)

  /** A blog as listed by the API. */
  datatype Blog = Blog(id: int, handle: string)
}
