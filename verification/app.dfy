/** The two image-source handlers of the `App` component: the thumbnail
    click, which derives the full-size image address from a thumbnail's
    address, and `changeImage`, which releases the previous object URL and
    points the subject image at the new source. React state is modelled as
    the final value a handler leaves behind. */
module App {
  import opened Wrappers
  import JsBuiltins

  /** `src.split('/').pop()`: the text after the last `/`. */
  function FileName(src: string): (f: string)
    ensures '/' !in f && |f| <= |src| && f == src[|src| - |f|..]
    ensures |f| == |src| || src[|src| - |f| - 1] == '/'
  {
    JsBuiltins.SplitLast(src, '/');
    var parts := JsBuiltins.Split(src, '/');
    parts[|parts| - 1]
  }

  /** `filename.split('_')[0]`: the text before the first `_`. */
  function BaseName(filename: string): (b: string)
    ensures '_' !in b && |b| <= |filename| && b == filename[..|b|]
    ensures |b| == |filename| || filename[|b|] == '_'
  {
    JsBuiltins.SplitFirst(filename, '_');
    JsBuiltins.Split(filename, '_')[0]
  }

  /** The address the click handler asks for: the public folder, a `/`, the
      base name and `.jpg`. */
  function ImageUrl(src: string, publicUrl: string): (url: string)
    ensures |url| >= |publicUrl| + 5
    ensures url[..|publicUrl| + 1] == publicUrl + "/"
    ensures url[|url| - 4..] == ".jpg"
  {
    var url := publicUrl + "/" + BaseName(FileName(src)) + ".jpg";
    assert url[..|publicUrl| + 1] == publicUrl + "/";
    url
  }

  /** `handleClick`: the image found under the clicked anchor, if any, gives
      the address passed on to `changeImage`; without one nothing happens. */
  function HandleClick(img: Option<string>, publicUrl: string): (r: Option<string>)
    ensures r.None? <==> img.None?
    ensures img.Some? ==> r == Some(ImageUrl(img.value, publicUrl))
  {
    match img
    case None => None
    case Some(src) => Some(ImageUrl(src, publicUrl))
  }

  /** The file name is the last segment of the address. */
  lemma FileNameOfPath(p: string, f: string)
    requires '/' !in f
    ensures FileName(p + "/" + f) == f
  {
    JsBuiltins.LastPieceAfterSeparator(p, '/', f);
  }

  /** The base name is the stem before the first `_`. */
  lemma BaseNameOfStem(stem: string, rest: string)
    requires '_' !in stem
    ensures BaseName(stem + "_" + rest) == stem
  {
    var f := stem + "_" + rest;
    assert f[|stem|] == '_';
    assert f[..|stem|] == stem;
  }

  /** A file name without `_` is its own base name. */
  lemma BaseNameWithoutUnderscore(f: string)
    requires '_' !in f
    ensures BaseName(f) == f
  {
  }

  /** The two thumbnails on the page lead to `a.jpg` and `b.jpg`, wherever the
      page is served from. */
  lemma PageThumbnails(publicUrl: string, origin: string)
    ensures HandleClick(Some(origin + publicUrl + "/a_thmb.jpg"), publicUrl) == Some(publicUrl + "/a.jpg")
    ensures HandleClick(Some(origin + publicUrl + "/b_thmb.jpg"), publicUrl) == Some(publicUrl + "/b.jpg")
  {
    ThumbnailLetter(publicUrl, origin + publicUrl, "a");
    ThumbnailLetter(publicUrl, origin + publicUrl, "b");
    assert "/" + "a" + "_thmb.jpg" == "/a_thmb.jpg" && "/" + "a" + ".jpg" == "/a.jpg";
    assert "/" + "b" + "_thmb.jpg" == "/b_thmb.jpg" && "/" + "b" + ".jpg" == "/b.jpg";
    Regroup(origin + publicUrl, "/", "a", "_thmb.jpg");
    Regroup(origin + publicUrl, "/", "b", "_thmb.jpg");
    Regroup(publicUrl, "/", "a", ".jpg");
    Regroup(publicUrl, "/", "b", ".jpg");
  }

  /** The thumbnail of a one-letter image `<anything>/<c>_thmb.jpg` leads to
      `<public>/<c>.jpg`. */
  lemma ThumbnailLetter(publicUrl: string, p: string, c: string)
    requires |c| == 1 && c[0] != '/' && c[0] != '_'
    ensures HandleClick(Some(p + "/" + c + "_thmb.jpg"), publicUrl) == Some(publicUrl + "/" + c + ".jpg")
  {
    Regroup(p, "/", c, "_" + "thmb.jpg");
    ThumbnailUrl(publicUrl, p, c, "thmb.jpg", p + "/" + c + "_thmb.jpg", publicUrl + "/" + c + ".jpg");
  }

  lemma Regroup(p: string, a: string, b: string, c: string)
    ensures p + a + b + c == p + (a + b + c)
  {
  }

  /** A thumbnail `<anything>/<stem>_<rest>` leads to `<public>/<stem>.jpg`. */
  lemma ThumbnailUrl(publicUrl: string, p: string, stem: string, rest: string, src: string, url: string)
    requires '/' !in stem && '_' !in stem && '/' !in rest
    requires src == p + "/" + stem + "_" + rest && url == publicUrl + "/" + stem + ".jpg"
    ensures HandleClick(Some(src), publicUrl) == Some(url)
  {
    var f := stem + "_" + rest;
    assert src == p + "/" + f;
    assert '/' !in f by {
      forall i | 0 <= i < |f|
        ensures f[i] != '/'
      {
        if i < |stem| {
          assert f[i] == stem[i];
        } else if i > |stem| {
          assert f[i] == rest[i - |stem| - 1];
        }
      }
    }
    FileNameOfPath(p, f);
    BaseNameOfStem(stem, rest);
  }

  /** A file name without `_` keeps its extension and gets another one. */
  lemma PlainFileDoublesExtension(publicUrl: string, origin: string)
    ensures HandleClick(Some(origin + "/x.jpg"), publicUrl) == Some(publicUrl + "/x.jpg.jpg")
  {
    PlainFileUrl(publicUrl, origin, "x.jpg", origin + "/x.jpg", publicUrl + "/x.jpg.jpg");
  }

  /** A name `<anything>/<f>` with no `_` in `f` leads to `<public>/<f>.jpg`. */
  lemma PlainFileUrl(publicUrl: string, p: string, f: string, src: string, url: string)
    requires '/' !in f && '_' !in f
    requires src == p + "/" + f && url == publicUrl + "/" + f + ".jpg"
    ensures HandleClick(Some(src), publicUrl) == Some(url)
  {
    FileNameOfPath(p, f);
    BaseNameWithoutUnderscore(f);
  }

  /** What `changeImage` may be given: a string, a `URL` object (its text is
      its `href`), a `File` from the file input, or anything else. */
  datatype Source = Text(text: string) | UrlObject(href: string) | LocalFile(name: string) | Unsupported

  /** The part of the component `changeImage` touches: the `image` state,
      the subject image's `src`, and the object URLs released so far. */
  datatype View = View(image: Option<string>, src: string, revoked: seq<string>)

  /** `if (image)`: a missing or empty address is falsy. */
  predicate Truthy(image: Option<string>) {
    image.Some? && image.value != ""
  }

  /** The address a supported source is shown from; `objectUrl` is what
      `URL.createObjectURL` returns for the file. */
  function Address(source: Source, objectUrl: string): string
    requires !source.Unsupported?
  {
    match source
    case Text(s) => s
    case UrlObject(h) => h
    case LocalFile(_) => objectUrl
  }

  /** `changeImage(url)`: release and clear the current image first, then
      show a supported source; an unsupported one returns early. */
  function ChangeImage(v: View, source: Source, objectUrl: string): (r: View)
    ensures r.revoked == v.revoked + (if Truthy(v.image) then [v.image.value] else [])
    ensures source.Unsupported? ==> r.src == v.src && !Truthy(r.image)
    ensures !source.Unsupported? ==> r.src == Address(source, objectUrl) && r.image == Some(r.src)
  {
    var cleared := if Truthy(v.image) then View(None, v.src, v.revoked + [v.image.value]) else v;
    if source.Unsupported? then cleared
    else
      var u := Address(source, objectUrl);
      cleared.(src := u, image := Some(u))
  }

  /** A click on an anchor: nothing without an image, otherwise the derived
      address is shown. */
  function Click(v: View, img: Option<string>, publicUrl: string, objectUrl: string): (r: View)
    ensures img.None? ==> r == v
    ensures img.Some? ==> r == ChangeImage(v, Text(ImageUrl(img.value, publicUrl)), objectUrl)
  {
    match HandleClick(img, publicUrl)
    case None => v
    case Some(url) => ChangeImage(v, Text(url), objectUrl)
  }

  /** Whatever comes next, even an unsupported source, the address shown
      before is released first. */
  lemma NextChangeReleasesPrevious(v: View, first: Source, o1: string, next: Source, o2: string)
    requires !first.Unsupported? && Address(first, o1) != ""
    ensures var shown := ChangeImage(v, first, o1);
      ChangeImage(shown, next, o2).revoked == shown.revoked + [Address(first, o1)]
  {
  }

  /** An unsupported source leaves nothing to release: the next change
      releases nothing more. */
  lemma UnsupportedLeavesNothing(v: View, next: Source, o1: string, o2: string)
    ensures var cleared := ChangeImage(v, Unsupported, o1);
      ChangeImage(cleared, next, o2).revoked == cleared.revoked
  {
  }

  /** Clicking a page thumbnail shows the full-size image. */
  lemma ClickShowsFullImage(v: View, publicUrl: string, origin: string, objectUrl: string)
    ensures Click(v, Some(origin + publicUrl + "/a_thmb.jpg"), publicUrl, objectUrl).src == publicUrl + "/a.jpg"
  {
    PageThumbnails(publicUrl, origin);
  }
}
