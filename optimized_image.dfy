/** The responsive image component: which stored variant it shows, the WebP source it offers,
    its layout box, its `srcset`, and the blur it keeps until the image has loaded. */
module OptimizedImage {

  import opened Wrappers
  import opened Js
  import SrcSet
  import Decimal

  /** The `sizes` attribute, the same for every image. */
  const Sizes := "(max-width: 480px) 300px, (max-width: 1024px) 800px, 1200px"

  /** `images?.[size] || images?.large || images?.original`. */
  function Jpg(images: JsObject, size: string): (r: JsStr)
    ensures Truthy(r) <==>
      Truthy(Prop(images, size)) || Truthy(Prop(images, "large")) || Truthy(Prop(images, "original"))
    ensures Truthy(Prop(images, size)) ==> r == Prop(images, size)
    ensures !Truthy(Prop(images, size)) && Truthy(Prop(images, "large")) ==> r == Prop(images, "large")
    ensures !Truthy(Prop(images, size)) && !Truthy(Prop(images, "large")) ==> r == Prop(images, "original")
  {
    var vs := [Prop(images, size), Prop(images, "large"), Prop(images, "original")];
    assert Truthy(vs[0]) ==> SomeTruthy(vs, 1);
    assert Truthy(vs[1]) ==> SomeTruthy(vs, 2);
    Coalesce(vs)
  }

  /** `images?.[size + "_webp"] || images?.large_webp`. */
  function Webp(images: JsObject, size: string): (r: JsStr)
    ensures Truthy(r) <==> Truthy(Prop(images, size + "_webp")) || Truthy(Prop(images, "large_webp"))
    ensures Truthy(Prop(images, size + "_webp")) ==> r == Prop(images, size + "_webp")
    ensures !Truthy(Prop(images, size + "_webp")) ==> r == Prop(images, "large_webp")
  {
    var vs := [Prop(images, size + "_webp"), Prop(images, "large_webp")];
    assert Truthy(vs[0]) ==> SomeTruthy(vs, 1);
    Coalesce(vs)
  }

  /** The layout box: 300, 800 or 1200 wide, and `Math.round(9 / 16 * width)` high. The
      product is exact in floating point for these widths, so it is the integer rounding of
      9w/16 with halves rounded up. */
  function Dimensions(size: string): (d: (nat, nat))
    ensures size == "thumbnail" ==> d == (300, 169)
    ensures size == "medium" ==> d == (800, 450)
    ensures size != "thumbnail" && size != "medium" ==> d == (1200, 675)
    ensures 16 * d.1 - 8 <= 9 * d.0 < 16 * d.1 + 8
  {
    var width := if size == "thumbnail" then 300 else if size == "medium" then 800 else 1200;
    (width, (9 * width + 8) / 16)
  }

  /** The three candidates of `srcset`: each named variant, or `jpg` when it is missing. */
  function Candidates(images: JsObject, jpg: JsStr): seq<SrcSet.Candidate> {
    [SrcSet.Candidate(ToText(Or(Prop(images, "thumbnail"), jpg)), 300),
     SrcSet.Candidate(ToText(Or(Prop(images, "medium"), jpg)), 800),
     SrcSet.Candidate(ToText(Or(Prop(images, "large"), jpg)), 1200)]
  }

  lemma Descriptors(thumbnail: string, medium: string, large: string)
    ensures SrcSet.CandidateText(SrcSet.Candidate(thumbnail, 300)) + ", " == thumbnail + " 300w, "
    ensures SrcSet.CandidateText(SrcSet.Candidate(medium, 800)) + ", " == medium + " 800w, "
    ensures SrcSet.CandidateText(SrcSet.Candidate(large, 1200)) == large + " 1200w"
  {
    assert Decimal.NatToString(300) == "300" && Decimal.NatToString(800) == "800";
    assert Decimal.NatToString(1200) == "1200";
  }

  /** The `srcset` template literal. */
  function SrcSetText(images: JsObject, jpg: JsStr): (r: string)
    ensures r == SrcSet.Render(Candidates(images, jpg))
  {
    var cs := Candidates(images, jpg);
    var thumbnail, medium, large := cs[0].url, cs[1].url, cs[2].url;
    SrcSet.RenderThree(cs[0], cs[1], cs[2]);
    Descriptors(thumbnail, medium, large);
    thumbnail + " 300w, " + medium + " 800w, " + large + " 1200w"
  }

  /** A browser reading the `srcset` back finds the three candidates, in the order 300w, 800w,
      1200w, when none of the URLs holds a space. */
  lemma SrcSetReadsBack(images: JsObject, jpg: JsStr)
    requires forall i :: 0 <= i < 3 ==> SrcSet.NoSpace(Candidates(images, jpg)[i].url)
    ensures SrcSet.Parse(SrcSetText(images, jpg)) == Some(Candidates(images, jpg))
  {
    SrcSet.ParseRenderInverse(Candidates(images, jpg));
  }

  /** The rendered `<picture>`: an optional WebP `<source>` and the `<img>`. */
  datatype Source = Source(srcSet: string, mime: string)
  datatype Img = Img(src: JsStr, srcSet: string, sizes: string, alt: string,
                     width: nat, height: nat, filter: string)
  datatype Picture = Picture(source: Option<Source>, img: Img)

  function View(images: JsObject, size: string, alt: string, blur: bool): (p: Picture)
    ensures p.source.Some? <==> Truthy(Webp(images, size))
    ensures p.source.Some? ==> p.source.value == Source(Webp(images, size).s, "image/webp")
    ensures p.img.src == Jpg(images, size) && p.img.srcSet == SrcSetText(images, p.img.src)
    ensures (p.img.width, p.img.height) == Dimensions(size)
    ensures p.img.filter == (if blur then "blur(8px)" else "none")
  {
    var jpg := Jpg(images, size);
    var webp := Webp(images, size);
    var (w, h) := Dimensions(size);
    Picture(if Truthy(webp) then Some(Source(webp.s, "image/webp")) else None,
            Img(jpg, SrcSetText(images, jpg), Sizes, alt, w, h, if blur then "blur(8px)" else "none"))
  }

  /** The sizes a caller names, each stored with a WebP twin. */
  const NamedSizes := ["thumbnail", "medium", "large"]

  /** Every variant the upload pipeline stores is present. */
  predicate Complete(images: JsObject) {
    && (forall size :: size in NamedSizes ==> Truthy(Prop(images, size)) && Truthy(Prop(images, size + "_webp")))
    && Truthy(Prop(images, "original"))
  }

  /** With every variant stored, a named size shows exactly its own variant, offers its own
      WebP, and the `srcset` lists the three named variants. */
  lemma CompleteImagesShowTheirSize(images: JsObject, size: string)
    requires Complete(images)
    requires size in NamedSizes
    ensures Jpg(images, size) == Prop(images, size)
    ensures Webp(images, size) == Prop(images, size + "_webp")
    ensures View(images, size, "", false).source.Some?
    ensures Candidates(images, Jpg(images, size)) ==
      [SrcSet.Candidate(Prop(images, "thumbnail").s, 300),
       SrcSet.Candidate(Prop(images, "medium").s, 800),
       SrcSet.Candidate(Prop(images, "large").s, 1200)]
  {
    assert NamedSizes[0] in NamedSizes && NamedSizes[1] in NamedSizes && NamedSizes[2] in NamedSizes;
  }

  /** The blur state of one mounted image. Each time `jpg` changes, an effect starts loading
      it; every load that completes clears the blur, whichever request it answers. Nothing sets
      the blur again. */
  class Loader {
    var jpg: JsStr
    /** The sources an effect has started to load, oldest first. */
    var requested: seq<JsStr>
    var blur: bool

    ghost predicate Valid()
      reads this
    {
      requested != [] && requested[|requested| - 1] == jpg
    }

    /** Mounting: blurred, and the first effect requests `jpg`. */
    constructor(jpg: JsStr)
      ensures Valid()
      ensures this.jpg == jpg && requested == [jpg] && blur
    {
      this.jpg := jpg;
      requested := [jpg];
      blur := true;
    }

    /** A render with a possibly new `jpg`: the effect runs again only when it changed. */
    method Rerender(next: JsStr)
      requires Valid()
      modifies this
      ensures Valid()
      ensures jpg == next && blur == old(blur)
      ensures requested == old(requested) + (if next == old(jpg) then [] else [next])
    {
      if next != jpg {
        requested := requested + [next];
      }
      jpg := next;
    }

    /** The `onload` of the `i`-th request. */
    method Loaded(i: nat)
      requires Valid() && i < |requested|
      modifies this
      ensures Valid()
      ensures !blur && jpg == old(jpg) && requested == old(requested)
    {
      blur := false;
    }
  }
}
