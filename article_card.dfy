/** One article in the list: its header picture, the date line, and the comment toggle with
    its counter. */
module ArticleCard {

  import opened Wrappers
  import opened Js
  import SrcSet
  import Decimal
  import OptimizedImage

  /** The fields of a listed article the card reads. `commentsCount` is None when the
      response has no `comments_count`. */
  datatype CardArticle = CardArticle(
    id: nat,
    title: JsStr,
    content: JsStr,
    author: JsStr,
    createdAt: JsStr,
    images: JsObject,
    imageUrl: JsStr,
    commentsCount: Option<nat>)

  /** The picture block is rendered when `images` is an object and a medium variant or the
      plain image URL is present. */
  predicate ShowsPicture(a: CardArticle) {
    a.images.Some? && (Truthy(Prop(a.images, "medium")) || Truthy(a.imageUrl))
  }

  /** `images?.medium || image_url`. */
  function JpgMedium(a: CardArticle): (r: JsStr)
    ensures Truthy(Prop(a.images, "medium")) ==> r == Prop(a.images, "medium")
    ensures !Truthy(Prop(a.images, "medium")) ==> r == a.imageUrl
    ensures ShowsPicture(a) ==> Truthy(r)
  {
    Or(Prop(a.images, "medium"), a.imageUrl)
  }

  /** `images?.large || image_url`. */
  function JpgLarge(a: CardArticle): (r: JsStr)
    ensures Truthy(Prop(a.images, "large")) ==> r == Prop(a.images, "large")
    ensures !Truthy(Prop(a.images, "large")) ==> r == a.imageUrl
  {
    Or(Prop(a.images, "large"), a.imageUrl)
  }

  /** `images?.medium_webp || null`: never undefined, and a `<source>` exactly when truthy. */
  function CardWebp(a: CardArticle): (r: JsStr)
    ensures Truthy(r) <==> Truthy(Prop(a.images, "medium_webp"))
    ensures Truthy(r) ==> r == Prop(a.images, "medium_webp")
    ensures !Truthy(r) ==> r == Null || r == Str("")
  {
    Or(Prop(a.images, "medium_webp"), Null)
  }

  function Candidates(a: CardArticle): seq<SrcSet.Candidate> {
    [SrcSet.Candidate(ToText(JpgMedium(a)), 600), SrcSet.Candidate(ToText(JpgLarge(a)), 1200)]
  }

  lemma Descriptors(medium: string, large: string)
    ensures SrcSet.CandidateText(SrcSet.Candidate(medium, 600)) + ", " == medium + " 600w, "
    ensures SrcSet.CandidateText(SrcSet.Candidate(large, 1200)) == large + " 1200w"
  {
    assert Decimal.NatToString(600) == "600" && Decimal.NatToString(1200) == "1200";
  }

  /** `${jpgMedium} 600w, ${jpgLarge} 1200w`. */
  function CardSrcSet(a: CardArticle): (r: string)
    ensures r == SrcSet.Render(Candidates(a))
  {
    var cs := Candidates(a);
    SrcSet.RenderTwo(cs[0], cs[1]);
    Descriptors(cs[0].url, cs[1].url);
    ToText(JpgMedium(a)) + " 600w, " + ToText(JpgLarge(a)) + " 1200w"
  }

  /** Read back, the card's `srcset` is medium at 600w then large at 1200w. */
  lemma CardSrcSetReadsBack(a: CardArticle)
    requires SrcSet.NoSpace(ToText(JpgMedium(a))) && SrcSet.NoSpace(ToText(JpgLarge(a)))
    ensures SrcSet.Parse(CardSrcSet(a)) == Some(Candidates(a))
  {
    SrcSet.ParseRenderInverse(Candidates(a));
  }

  /** The card's picture, when it has one: optional WebP source, the `<img>` source and its
      `srcset`. */
  datatype CardPicture = CardPicture(webp: Option<string>, src: JsStr, srcSet: string)

  function Picture(a: CardArticle): (p: Option<CardPicture>)
    ensures p.Some? <==> ShowsPicture(a)
    ensures p.Some? ==> p.value.src == JpgMedium(a) && Truthy(p.value.src)
    ensures p.Some? ==> p.value.srcSet == CardSrcSet(a)
    ensures p.Some? ==> (p.value.webp.Some? <==> Truthy(Prop(a.images, "medium_webp")))
  {
    if !ShowsPicture(a) then None
    else
      var webp := CardWebp(a);
      Some(CardPicture(if Truthy(webp) then Some(webp.s) else None, JpgMedium(a), CardSrcSet(a)))
  }

  /** An article whose upload pipeline stored every variant shows them, the large one for the
      wide candidate, whatever `image_url` holds. */
  lemma StoredVariantsWin(a: CardArticle)
    requires a.images.Some?
    requires Truthy(Prop(a.images, "medium")) && Truthy(Prop(a.images, "large"))
    ensures Picture(a).Some?
    ensures Candidates(a) == [SrcSet.Candidate(Prop(a.images, "medium").s, 600),
                              SrcSet.Candidate(Prop(a.images, "large").s, 1200)]
  {
  }

  /** The `alt` text of the card's images: the title. React leaves the attribute out when the
      title is undefined or null; the model writes that omitted `alt` as the empty string. */
  function AltText(a: CardArticle): string {
    if a.title.Str? then a.title.s else ""
  }

  /** What the card renders above its text: its own picture block, then an `OptimizedImage` of
      the medium size whenever `images` is an object. `blur` is that image's own state. */
  datatype Header = Header(picture: Option<CardPicture>, optimized: Option<OptimizedImage.Picture>)

  function HeaderOf(a: CardArticle, blur: bool): (h: Header)
    ensures h.picture == Picture(a)
    ensures h.optimized.Some? <==> a.images.Some?
    ensures h.optimized.Some? ==> h.optimized.value.img.src == OptimizedImage.Jpg(a.images, "medium")
    ensures h.optimized.Some? ==> h.optimized.value.img.alt == AltText(a)
  {
    Header(Picture(a),
           if a.images.Some? then Some(OptimizedImage.View(a.images, "medium", AltText(a), blur)) else None)
  }

  /** An article with a medium variant shows it twice: once in the card's own picture block and
      once through `OptimizedImage`. */
  lemma MediumShownTwice(a: CardArticle, blur: bool)
    requires a.images.Some? && Truthy(Prop(a.images, "medium"))
    ensures var h := HeaderOf(a, blur);
      && h.picture.Some? && h.optimized.Some?
      && h.picture.value.src == Prop(a.images, "medium")
      && h.optimized.value.img.src == Prop(a.images, "medium")
  {
  }

  /** The date line: "N/A" for a missing date, otherwise the locale rendering, which is passed
      in. */
  function FormatDate(d: JsStr, toLocale: string -> string): (r: string)
    ensures !Truthy(d) ==> r == "N/A"
    ensures Truthy(d) ==> r == toLocale(d.s)
  {
    if !Truthy(d) then "N/A" else toLocale(d.s)
  }

  /** The button's text and whether `CommentList` is mounted. */
  datatype CardFooter = CardFooter(caption: string, commentList: bool)

  /** The card's own state: whether the comments are open and the counter on the button. */
  class CardState {
    var showComments: bool
    var commentsCount: nat

    /** Mounting: comments closed, the counter from the response or 0. */
    constructor(a: CardArticle)
      ensures !showComments
      ensures commentsCount == (if a.commentsCount.Some? then a.commentsCount.value else 0)
    {
      showComments := false;
      commentsCount := a.commentsCount.GetOr(0);
    }

    /** The card's footer: the toggle button's label and whether the comment list below it is
        rendered. */
    function Footer(): (f: CardFooter)
      reads this
      ensures f.commentList == showComments
      ensures |f.caption| > 8 + |Decimal.NatToString(commentsCount)|
      ensures f.caption[..7] == "Masquer" <==> f.commentList
      ensures f.caption[|f.caption| - |Decimal.NatToString(commentsCount)| - 2..]
           == "(" + Decimal.NatToString(commentsCount) + ")"
    {
      var count := Decimal.NatToString(commentsCount);
      var verb := if showComments then "Masquer" else "Afficher";
      var caption := verb + " commentaires (" + count + ")";
      assert caption[..7] == verb[..7] && verb[..7][0] == verb[0];
      assert caption[|caption| - |count| - 2..] == "(" + count + ")";
      CardFooter(caption, showComments)
    }

    /** A click on the comments button. */
    method Toggle()
      modifies this
      ensures showComments == !old(showComments)
      ensures commentsCount == old(commentsCount)
    {
      showComments := !showComments;
    }

    /** A fresh count: the comment fetch on mount, or the open comment list reporting what it
        loaded. A failing fetch only logs, so it has no method. */
    method CountLoaded(n: nat)
      modifies this
      ensures commentsCount == n
      ensures showComments == old(showComments)
    {
      commentsCount := n;
    }
  }

  /** Two clicks close what one opened: the card is back where it was. */
  method ToggleTwice(c: CardState)
    modifies c
    ensures c.showComments == old(c.showComments) && c.commentsCount == old(c.commentsCount)
  {
    c.Toggle();
    c.Toggle();
  }
}
