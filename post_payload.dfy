/**
 * The post that `publishPost` builds from a note: the frontmatter object with
 * its JavaScript `||` fallbacks, and `contentPost`, which wraps it with the
 * rendered HTML into the `{ posts: [ … ] }` body of the Admin API.
 */
module PostPayload {
  import opened Wrappers

  /**
   * The frontmatter fields the plugin reads from the metadata cache. `None` is
   * a field that is absent (`undefined`).
   */
  datatype Frontmatter = Frontmatter(
    title: Option<string>,
    tags: Option<seq<string>>,
    featured: Option<bool>,
    slug: Option<string>,
    published: Option<bool>,
    excerpt: Option<string>,
    featureImage: Option<string>)

  /** The frontmatter object of the post; `None` is a field left `undefined`. */
  datatype PostFields = PostFields(
    title: string,
    tags: seq<string>,
    featured: bool,
    slug: string,
    status: string,
    excerpt: Option<string>,
    featureImage: Option<string>)

  /** One post of the payload: the frontmatter fields spread, plus `html`. */
  datatype Post = Post(fields: PostFields, html: string)

  /** The `{ posts: [ … ] }` request body. */
  datatype Payload = Payload(posts: seq<Post>)

  const PublishedStatus := "published"
  const DraftStatus := "draft"

  /** JavaScript `value || fallback` for a string that may be `undefined`: "" is falsy too. */
  function OrElse(value: Option<string>, fallback: string): (r: string)
    ensures r == fallback || (value == Some(r) && r != "")
    ensures value.Some? && value.value != "" ==> r == value.value
  {
    if value.Some? && value.value != "" then value.value else fallback
  }

  /** JavaScript `value || undefined`: an empty string becomes `undefined`. */
  function NonEmpty(value: Option<string>): (r: Option<string>)
    ensures r.Some? <==> value.Some? && value.value != ""
    ensures r.Some? ==> r == value
  {
    if value.Some? && value.value != "" then value else None
  }

  /** `metaMatter?.field`: every field is `undefined` when there is no frontmatter at all. */
  function Fields(meta: Option<Frontmatter>): Frontmatter
  {
    meta.GetOr(Frontmatter(None, None, None, None, None, None, None))
  }

  /** The `frontmatter` object of `publishPost`, for a note whose file is called `basename`. */
  function BuildFields(meta: Option<Frontmatter>, basename: string): (f: PostFields)
    ensures f.status == PublishedStatus || f.status == DraftStatus
    ensures f.status == PublishedStatus <==> Fields(meta).published == Some(true)
    ensures f.featured <==> Fields(meta).featured == Some(true)
    ensures f.tags == Fields(meta).tags.GetOr([])
    ensures f.title == OrElse(Fields(meta).title, basename)
    ensures f.slug == OrElse(Fields(meta).slug, basename)
    ensures f.excerpt == NonEmpty(Fields(meta).excerpt)
    ensures f.featureImage == NonEmpty(Fields(meta).featureImage)
  {
    var m := Fields(meta);
    PostFields(
      OrElse(m.title, basename),
      m.tags.GetOr([]),
      m.featured.GetOr(false),
      OrElse(m.slug, basename),
      if m.published == Some(true) then PublishedStatus else DraftStatus,
      NonEmpty(m.excerpt),
      NonEmpty(m.featureImage))
  }

  /** A note without frontmatter gets every default: the file name as title and slug, a draft. */
  lemma NoFrontmatterDefaults(basename: string)
    ensures BuildFields(None, basename)
         == PostFields(basename, [], false, basename, "draft", None, None)
  {
  }

  /**
   * Field by field, whatever else the frontmatter holds: a non-empty title,
   * slug, excerpt or feature image is taken as it is, an absent or empty one
   * falls back to its default.
   */
  lemma PresentFieldsKept(meta: Option<Frontmatter>, basename: string)
    ensures var m := Fields(meta); var f := BuildFields(meta, basename);
      (m.title.Some? && m.title.value != "" ==> f.title == m.title.value) &&
      (m.title.None? || m.title.value == "" ==> f.title == basename) &&
      (m.slug.Some? && m.slug.value != "" ==> f.slug == m.slug.value) &&
      (m.slug.None? || m.slug.value == "" ==> f.slug == basename) &&
      (m.excerpt.Some? && m.excerpt.value != "" ==> f.excerpt == m.excerpt) &&
      (m.excerpt.None? || m.excerpt.value == "" ==> f.excerpt.None?) &&
      (m.featureImage.Some? && m.featureImage.value != "" ==> f.featureImage == m.featureImage) &&
      (m.featureImage.None? || m.featureImage.value == "" ==> f.featureImage.None?) &&
      (m.tags.Some? ==> f.tags == m.tags.value) &&
      (m.featured.Some? ==> f.featured == m.featured.value)
  {
  }

  /**
   * The fields, written back as frontmatter, give the same post again: the
   * defaults are a fixed point.
   */
  lemma FieldsAsFrontmatterRoundTrip(f: PostFields, basename: string)
    requires f.status == "published" || f.status == "draft"
    requires f.title != "" || basename == ""
    requires f.slug != "" || basename == ""
    requires f.excerpt != Some("") && f.featureImage != Some("")
    ensures BuildFields(Some(AsFrontmatter(f)), basename) == f
  {
  }

  /** Frontmatter that holds exactly the given fields. */
  function AsFrontmatter(f: PostFields): Frontmatter
  {
    Frontmatter(Some(f.title), Some(f.tags), Some(f.featured), Some(f.slug),
                Some(f.status == PublishedStatus), f.excerpt, f.featureImage)
  }

  /** `contentPost`: the one post of the payload, its HTML rendered from the note body. */
  function ContentPost(fields: PostFields, content: string, render: string -> string): (p: Payload)
    ensures |p.posts| == 1
    ensures p.posts[0].fields == fields && p.posts[0].html == render(content)
  {
    Payload([Post(fields, render(content))])
  }
}
