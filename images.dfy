/** `extractImages`: the gallery images and the other images of a page,
    each URL taken at most once over both lists. */
module ImageExtractor {
  import opened Optional
  import opened Text
  import opened Page

  /** A gallery image, numbered from 1 in the order it was taken. */
  datatype GalleryImage = GalleryImage(index: nat, url: string, alt: Option<string>)

  /** Any other image of the page. */
  datatype OtherImage = OtherImage(url: string, alt: Option<string>)

  datatype Images = Images(gallery: seq<GalleryImage>, other: seq<OtherImage>)

  /** `src || data-src`: an empty `src` counts as missing. */
  function SourceUrl(img: Image): (u: Option<string>)
    ensures Truthy(img.src) ==> u == img.src
    ensures !Truthy(img.src) ==> u == img.dataSrc
    ensures Truthy(u) <==> Truthy(img.src) || Truthy(img.dataSrc)
  {
    if Truthy(img.src) then img.src else img.dataSrc
  }

  /** The filter of the gallery pass: an image of the CDN host whose URL
      names a gallery or a pictures folder. */
  predicate IsGalleryUrl(u: string)
  {
    Contains(u, "91-img.com") && (Contains(u, "gallery") || Contains(u, "pictures"))
  }

  /** The filter of the second pass: an image of the CDN host that is neither
      a source image nor an icon. */
  predicate IsOtherUrl(u: string)
  {
    !Contains(u, "sourceimg") && !Contains(u, "icon") && Contains(u, "91-img.com")
  }

  function GalleryUrls(g: seq<GalleryImage>): set<string>
  {
    set k | 0 <= k < |g| :: g[k].url
  }

  function OtherUrls(o: seq<OtherImage>): set<string>
  {
    set k | 0 <= k < |o| :: o[k].url
  }

  /** The gallery pass over the candidates, in document order: an image is
      taken when its URL is truthy, not yet taken and passes the gallery filter. */
  function GalleryPass(imgs: seq<Image>): seq<GalleryImage>
    decreases |imgs|
  {
    if imgs == [] then []
    else
      var g := GalleryPass(imgs[..|imgs| - 1]);
      var img := imgs[|imgs| - 1];
      var u := SourceUrl(img);
      if Truthy(u) && u.value !in GalleryUrls(g) && IsGalleryUrl(u.value)
      then g + [GalleryImage(|g| + 1, u.value, CleanText(img.alt))]
      else g
  }

  /** The second pass over every image, in document order, when the URLs in
      `seen` are already taken. */
  function OtherPass(imgs: seq<Image>, seen: set<string>): seq<OtherImage>
    decreases |imgs|
  {
    if imgs == [] then []
    else
      var o := OtherPass(imgs[..|imgs| - 1], seen);
      var img := imgs[|imgs| - 1];
      var u := SourceUrl(img);
      if Truthy(u) && u.value !in seen && u.value !in OtherUrls(o) && IsOtherUrl(u.value)
      then o + [OtherImage(u.value, CleanText(img.alt))]
      else o
  }

  /** The images of a page: the gallery pass, then the second pass with the
      gallery's URLs taken. */
  function ImagesOf(doc: Document): Images
  {
    var g := GalleryPass(doc.galleryCandidates);
    Images(g, OtherPass(doc.allImages, GalleryUrls(g)))
  }

  // ---------------------------------------------------------------------------
  // Shape of the two lists

  lemma GalleryUrlsSnoc(g: seq<GalleryImage>, x: GalleryImage)
    ensures GalleryUrls(g + [x]) == GalleryUrls(g) + {x.url}
  {
    assert (g + [x])[|g|] == x;
    forall u | u in GalleryUrls(g) ensures u in GalleryUrls(g + [x]) {
      var k :| 0 <= k < |g| && g[k].url == u;
      assert (g + [x])[k] == g[k];
    }
  }

  lemma OtherUrlsSnoc(o: seq<OtherImage>, x: OtherImage)
    ensures OtherUrls(o + [x]) == OtherUrls(o) + {x.url}
  {
    assert (o + [x])[|o|] == x;
    forall u | u in OtherUrls(o) ensures u in OtherUrls(o + [x]) {
      var k :| 0 <= k < |o| && o[k].url == u;
      assert (o + [x])[k] == o[k];
    }
  }

  /** The gallery is numbered 1, 2, 3, … in order, holds no URL twice, and
      every URL is non-empty and passes the gallery filter. */
  predicate GalleryShaped(g: seq<GalleryImage>)
  {
    && (forall k :: 0 <= k < |g| ==> g[k].index == k + 1)
    && (forall k :: 0 <= k < |g| ==> g[k].url != [] && IsGalleryUrl(g[k].url))
    && (forall k, k' :: 0 <= k < k' < |g| ==> g[k].url != g[k'].url)
  }

  /** The other images hold no URL twice, none of `seen`, and every URL is
      non-empty and passes the second filter. */
  predicate OtherShaped(o: seq<OtherImage>, seen: set<string>)
  {
    && (forall k :: 0 <= k < |o| ==> o[k].url != [] && IsOtherUrl(o[k].url) && o[k].url !in seen)
    && (forall k, k' :: 0 <= k < k' < |o| ==> o[k].url != o[k'].url)
  }

  lemma GalleryShapedSnoc(g: seq<GalleryImage>, x: GalleryImage)
    requires GalleryShaped(g) && x.index == |g| + 1 && x.url != [] && IsGalleryUrl(x.url)
    requires forall k :: 0 <= k < |g| ==> g[k].url != x.url
    ensures GalleryShaped(g + [x])
  {
  }

  lemma OtherShapedSnoc(o: seq<OtherImage>, seen: set<string>, x: OtherImage)
    requires OtherShaped(o, seen) && x.url != [] && IsOtherUrl(x.url) && x.url !in seen
    requires forall k :: 0 <= k < |o| ==> o[k].url != x.url
    ensures OtherShaped(o + [x], seen)
  {
  }

  lemma {:induction false} GalleryPassShaped(imgs: seq<Image>)
    ensures GalleryShaped(GalleryPass(imgs))
    decreases |imgs|
  {
    if imgs != [] {
      var g := GalleryPass(imgs[..|imgs| - 1]);
      GalleryPassShaped(imgs[..|imgs| - 1]);
      var u := SourceUrl(imgs[|imgs| - 1]);
      if Truthy(u) && u.value !in GalleryUrls(g) && IsGalleryUrl(u.value) {
        forall k | 0 <= k < |g| ensures g[k].url != u.value {
          assert g[k].url in GalleryUrls(g);
        }
        GalleryShapedSnoc(g, GalleryImage(|g| + 1, u.value, CleanText(imgs[|imgs| - 1].alt)));
      }
    }
  }

  lemma {:induction false} OtherPassShaped(imgs: seq<Image>, seen: set<string>)
    ensures OtherShaped(OtherPass(imgs, seen), seen)
    decreases |imgs|
  {
    if imgs != [] {
      var o := OtherPass(imgs[..|imgs| - 1], seen);
      OtherPassShaped(imgs[..|imgs| - 1], seen);
      var u := SourceUrl(imgs[|imgs| - 1]);
      if Truthy(u) && u.value !in seen && u.value !in OtherUrls(o) && IsOtherUrl(u.value) {
        forall k | 0 <= k < |o| ensures o[k].url != u.value {
          assert o[k].url in OtherUrls(o);
        }
        OtherShapedSnoc(o, seen, OtherImage(u.value, CleanText(imgs[|imgs| - 1].alt)));
      }
    }
  }

  /** No URL is taken twice over the two lists of a page, the gallery is
      numbered from 1, and every URL passes the filter of its pass. */
  lemma ImagesOfShaped(doc: Document)
    ensures var r := ImagesOf(doc);
      && GalleryShaped(r.gallery)
      && OtherShaped(r.other, GalleryUrls(r.gallery))
      && (forall k, k' :: 0 <= k < |r.gallery| && 0 <= k' < |r.other| ==> r.gallery[k].url != r.other[k'].url)
  {
    var g := GalleryPass(doc.galleryCandidates);
    GalleryPassShaped(doc.galleryCandidates);
    OtherPassShaped(doc.allImages, GalleryUrls(g));
    var o := OtherPass(doc.allImages, GalleryUrls(g));
    forall k, k' | 0 <= k < |g| && 0 <= k' < |o| ensures g[k].url != o[k'].url {
      assert g[k].url in GalleryUrls(g);
    }
  }

  // ---------------------------------------------------------------------------
  // Which images are taken, and from where

  /** The gallery of a longer candidate list holds every URL of the shorter one. */
  lemma GalleryPassGrows(imgs: seq<Image>)
    requires imgs != []
    ensures GalleryUrls(GalleryPass(imgs[..|imgs| - 1])) <= GalleryUrls(GalleryPass(imgs))
  {
    var g, img := GalleryPass(imgs[..|imgs| - 1]), imgs[|imgs| - 1];
    GalleryUrlsSnoc(g, GalleryImage(|g| + 1, GetOr(SourceUrl(img), []), CleanText(img.alt)));
  }

  /** Every candidate whose URL is truthy and passes the gallery filter ends
      up in the gallery, from this image or an earlier one. */
  lemma {:induction false} GalleryPassComplete(imgs: seq<Image>, i: nat)
    requires i < |imgs| && Truthy(SourceUrl(imgs[i])) && IsGalleryUrl(SourceUrl(imgs[i]).value)
    ensures SourceUrl(imgs[i]).value in GalleryUrls(GalleryPass(imgs))
    decreases |imgs|
  {
    var init := imgs[..|imgs| - 1];
    GalleryPassGrows(imgs);
    if i < |init| {
      assert init[i] == imgs[i];
      GalleryPassComplete(init, i);
    } else {
      var g, u := GalleryPass(init), SourceUrl(imgs[i]).value;
      if u !in GalleryUrls(g) {
        GalleryUrlsSnoc(g, GalleryImage(|g| + 1, u, CleanText(imgs[i].alt)));
      }
    }
  }

  lemma OtherPassGrows(imgs: seq<Image>, seen: set<string>)
    requires imgs != []
    ensures OtherUrls(OtherPass(imgs[..|imgs| - 1], seen)) <= OtherUrls(OtherPass(imgs, seen))
  {
    var o, img := OtherPass(imgs[..|imgs| - 1], seen), imgs[|imgs| - 1];
    OtherUrlsSnoc(o, OtherImage(GetOr(SourceUrl(img), []), CleanText(img.alt)));
  }

  /** Every image whose URL is truthy and passes the second filter is taken,
      by the gallery (`seen`) or by the second pass. */
  lemma {:induction false} OtherPassComplete(imgs: seq<Image>, seen: set<string>, i: nat)
    requires i < |imgs| && Truthy(SourceUrl(imgs[i])) && IsOtherUrl(SourceUrl(imgs[i]).value)
    ensures SourceUrl(imgs[i]).value in seen + OtherUrls(OtherPass(imgs, seen))
    decreases |imgs|
  {
    var init := imgs[..|imgs| - 1];
    OtherPassGrows(imgs, seen);
    if i < |init| {
      assert init[i] == imgs[i];
      OtherPassComplete(init, seen, i);
    } else {
      var o, u := OtherPass(init, seen), SourceUrl(imgs[i]).value;
      if u !in seen && u !in OtherUrls(o) {
        OtherUrlsSnoc(o, OtherImage(u, CleanText(imgs[i].alt)));
      }
    }
  }

  /** Each gallery image comes from the first candidate carrying its URL,
      and its `alt` is that candidate's cleaned `alt`. */
  lemma {:induction false} GalleryPassSource(imgs: seq<Image>, k: nat) returns (i: nat)
    requires k < |GalleryPass(imgs)|
    ensures i < |imgs|
    ensures SourceUrl(imgs[i]) == Some(GalleryPass(imgs)[k].url)
    ensures GalleryPass(imgs)[k].alt == CleanText(imgs[i].alt)
    ensures forall i' :: 0 <= i' < i ==> SourceUrl(imgs[i']) != Some(GalleryPass(imgs)[k].url)
    decreases |imgs|
  {
    var init := imgs[..|imgs| - 1];
    var g := GalleryPass(init);
    GalleryPassShaped(imgs);
    if k < |g| {
      assert GalleryPass(imgs)[k] == g[k];
      i := GalleryPassSource(init, k);
      assert init[i] == imgs[i];
      forall i' | 0 <= i' < i ensures SourceUrl(imgs[i']) != Some(g[k].url) {
        assert init[i'] == imgs[i'];
      }
    } else {
      i := |imgs| - 1;
      var u := GalleryPass(imgs)[k].url;
      assert u !in GalleryUrls(g);
      forall i' | 0 <= i' < i ensures SourceUrl(imgs[i']) != Some(u) {
        if SourceUrl(imgs[i']) == Some(u) {
          assert init[i'] == imgs[i'];
          GalleryPassComplete(init, i');
        }
      }
    }
  }

  /** Each other image comes from the first image carrying its URL, and its
      `alt` is that image's cleaned `alt`. */
  lemma {:induction false} OtherPassSource(imgs: seq<Image>, seen: set<string>, k: nat) returns (i: nat)
    requires k < |OtherPass(imgs, seen)|
    ensures i < |imgs|
    ensures SourceUrl(imgs[i]) == Some(OtherPass(imgs, seen)[k].url)
    ensures OtherPass(imgs, seen)[k].alt == CleanText(imgs[i].alt)
    ensures forall i' :: 0 <= i' < i ==> SourceUrl(imgs[i']) != Some(OtherPass(imgs, seen)[k].url)
    decreases |imgs|
  {
    var init := imgs[..|imgs| - 1];
    var o := OtherPass(init, seen);
    OtherPassShaped(imgs, seen);
    if k < |o| {
      assert OtherPass(imgs, seen)[k] == o[k];
      i := OtherPassSource(init, seen, k);
      assert init[i] == imgs[i];
      forall i' | 0 <= i' < i ensures SourceUrl(imgs[i']) != Some(o[k].url) {
        assert init[i'] == imgs[i'];
      }
    } else {
      i := |imgs| - 1;
      var u := OtherPass(imgs, seen)[k].url;
      assert u !in OtherUrls(o) && u !in seen;
      forall i' | 0 <= i' < i ensures SourceUrl(imgs[i']) != Some(u) {
        if SourceUrl(imgs[i']) == Some(u) {
          assert init[i'] == imgs[i'];
          OtherPassComplete(init, seen, i');
        }
      }
    }
  }

  /** The gallery keeps discovery order: of two gallery images, the earlier
      one comes from the earlier first candidate carrying its URL. */
  lemma {:induction false} GalleryPassOrder(imgs: seq<Image>, k: nat, k': nat) returns (i: nat, i': nat)
    requires k < k' < |GalleryPass(imgs)|
    ensures i < i' < |imgs|
    ensures SourceUrl(imgs[i]) == Some(GalleryPass(imgs)[k].url)
    ensures SourceUrl(imgs[i']) == Some(GalleryPass(imgs)[k'].url)
    ensures forall j :: 0 <= j < i ==> SourceUrl(imgs[j]) != Some(GalleryPass(imgs)[k].url)
    ensures forall j :: 0 <= j < i' ==> SourceUrl(imgs[j]) != Some(GalleryPass(imgs)[k'].url)
    decreases |imgs|
  {
    var init := imgs[..|imgs| - 1];
    var g := GalleryPass(init);
    assert GalleryPass(imgs)[k] == g[k];
    if k' < |g| {
      assert GalleryPass(imgs)[k'] == g[k'];
      i, i' := GalleryPassOrder(init, k, k');
      assert init[i] == imgs[i] && init[i'] == imgs[i'];
      assert forall j :: 0 <= j < i' ==> init[j] == imgs[j];
    } else {
      GalleryPassShaped(imgs);
      i := GalleryPassSource(imgs, k);
      i' := GalleryPassSource(imgs, k');
      var i0 := GalleryPassSource(init, k);
      assert init[i0] == imgs[i0];
      var u' := GalleryPass(imgs)[k'].url;
      assert u' !in GalleryUrls(g);
      forall j | 0 <= j < |init| && Truthy(SourceUrl(imgs[j])) && IsGalleryUrl(SourceUrl(imgs[j]).value)
        ensures SourceUrl(imgs[j]).value in GalleryUrls(g)
      {
        assert init[j] == imgs[j];
        GalleryPassComplete(init, j);
      }
    }
  }

  /** The other images keep discovery order in the same way. */
  lemma {:induction false} OtherPassOrder(imgs: seq<Image>, seen: set<string>, k: nat, k': nat) returns (i: nat, i': nat)
    requires k < k' < |OtherPass(imgs, seen)|
    ensures i < i' < |imgs|
    ensures SourceUrl(imgs[i]) == Some(OtherPass(imgs, seen)[k].url)
    ensures SourceUrl(imgs[i']) == Some(OtherPass(imgs, seen)[k'].url)
    ensures forall j :: 0 <= j < i ==> SourceUrl(imgs[j]) != Some(OtherPass(imgs, seen)[k].url)
    ensures forall j :: 0 <= j < i' ==> SourceUrl(imgs[j]) != Some(OtherPass(imgs, seen)[k'].url)
    decreases |imgs|
  {
    var init := imgs[..|imgs| - 1];
    var o := OtherPass(init, seen);
    assert OtherPass(imgs, seen)[k] == o[k];
    if k' < |o| {
      assert OtherPass(imgs, seen)[k'] == o[k'];
      i, i' := OtherPassOrder(init, seen, k, k');
      assert init[i] == imgs[i] && init[i'] == imgs[i'];
      assert forall j :: 0 <= j < i' ==> init[j] == imgs[j];
    } else {
      OtherPassShaped(imgs, seen);
      i := OtherPassSource(imgs, seen, k);
      i' := OtherPassSource(imgs, seen, k');
      var i0 := OtherPassSource(init, seen, k);
      assert init[i0] == imgs[i0];
      var u' := OtherPass(imgs, seen)[k'].url;
      assert u' !in OtherUrls(o) && u' !in seen;
      forall j | 0 <= j < |init| && Truthy(SourceUrl(imgs[j])) && IsOtherUrl(SourceUrl(imgs[j]).value)
        ensures SourceUrl(imgs[j]).value in seen + OtherUrls(o)
      {
        assert init[j] == imgs[j];
        OtherPassComplete(init, seen, j);
      }
    }
  }

  // ---------------------------------------------------------------------------
  // The extractor

  /** One step of the gallery loop. */
  lemma GalleryStep(imgs: seq<Image>, i: nat)
    requires i < |imgs|
    ensures var g, u := GalleryPass(imgs[..i]), SourceUrl(imgs[i]);
      GalleryPass(imgs[..i + 1]) ==
        if Truthy(u) && u.value !in GalleryUrls(g) && IsGalleryUrl(u.value)
        then g + [GalleryImage(|g| + 1, u.value, CleanText(imgs[i].alt))]
        else g
  {
    assert imgs[..i + 1][..i] == imgs[..i];
  }

  /** One step of the second loop. */
  lemma OtherStep(imgs: seq<Image>, seen: set<string>, i: nat)
    requires i < |imgs|
    ensures var o, u := OtherPass(imgs[..i], seen), SourceUrl(imgs[i]);
      OtherPass(imgs[..i + 1], seen) ==
        if Truthy(u) && u.value !in seen && u.value !in OtherUrls(o) && IsOtherUrl(u.value)
        then o + [OtherImage(u.value, CleanText(imgs[i].alt))]
        else o
  {
    assert imgs[..i + 1][..i] == imgs[..i];
  }

  /** `extractImages`: the gallery loop over the candidates, then the loop over
      every image, sharing one set of taken URLs. */
  method ExtractImages(doc: Document) returns (images: Images)
    ensures images == ImagesOf(doc)
    ensures GalleryShaped(images.gallery) && OtherShaped(images.other, GalleryUrls(images.gallery))
  {
    var seen: set<string> := {};
    var gallery: seq<GalleryImage> := [];
    var cands := doc.galleryCandidates;
    for i := 0 to |cands|
      invariant gallery == GalleryPass(cands[..i])
      invariant seen == GalleryUrls(gallery)
    {
      var img := cands[i];
      var src := SourceUrl(img);
      GalleryStep(cands, i);
      if Truthy(src) && src.value !in seen && IsGalleryUrl(src.value) {
        GalleryUrlsSnoc(gallery, GalleryImage(|gallery| + 1, src.value, CleanText(img.alt)));
        gallery := gallery + [GalleryImage(|gallery| + 1, src.value, CleanText(img.alt))];
        seen := seen + {src.value};
      }
    }
    assert cands[..|cands|] == cands;

    ghost var taken := seen;
    var other: seq<OtherImage> := [];
    var all := doc.allImages;
    for i := 0 to |all|
      invariant other == OtherPass(all[..i], taken)
      invariant seen == taken + OtherUrls(other)
    {
      var img := all[i];
      var src := SourceUrl(img);
      OtherStep(all, taken, i);
      if Truthy(src) && src.value !in seen && IsOtherUrl(src.value) {
        OtherUrlsSnoc(other, OtherImage(src.value, CleanText(img.alt)));
        other := other + [OtherImage(src.value, CleanText(img.alt))];
        seen := seen + {src.value};
      }
    }
    assert all[..|all|] == all;
    images := Images(gallery, other);
    ImagesOfShaped(doc);
  }
}
