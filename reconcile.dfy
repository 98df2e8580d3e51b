/** What one ingestion does to the store, on values: the four tables as maps
    from row id to row, with one counter handing out fresh ids. `.single()`
    lookups, get-or-create of the brand and of the phone, the delete-then-insert
    of the phone's detail row and of its image rows. */
module Reconcile {
  import opened Optional
  import opened Text
  import opened SpecExtractor
  import opened ImageExtractor

  const DetailSource: string := "91mobiles"
  const GalleryKind: string := "gallery"

  /** A row of `brands`. */
  datatype Brand = Brand(name: string, displayName: string)

  /** A row of `phones`; `None` stands for SQL `NULL`. */
  datatype Phone = Phone(
    brandId: nat,
    folderName: Option<string>,
    name: string,
    price: Option<string>,
    releaseDate: Option<string>,
    firstImage: Option<string>)

  /** A row of `phone_details`. */
  datatype Detail = Detail(phoneId: nat, specs: Specs, metadata: map<string, string>, sources: seq<string>)

  /** A row of `phone_images`. */
  datatype ImageRow = ImageRow(phoneId: nat, url: string, alt: Option<string>, kind: string, index: nat)

  datatype Tables = Tables(
    brands: map<nat, Brand>,
    phones: map<nat, Phone>,
    details: map<nat, Detail>,
    images: map<nat, ImageRow>,
    nextId: nat)

  /** A state and the id of the row a step found or created in it. */
  datatype Placed = Placed(tables: Tables, id: nat)

  /** The answer of an ingestion: rejected because the page has no
      specification, or stored under a phone id with the sizes it reports. */
  datatype Outcome = NoSpecs | Stored(phoneId: nat, name: Option<string>, specCount: nat, imageCount: nat)

  datatype Ingested = Ingested(tables: Tables, outcome: Outcome)

  /** Two phones of one brand under one non-null folder name. */
  predicate SameKey(p: Phone, q: Phone)
  {
    p.folderName.Some? && p.brandId == q.brandId && p.folderName == q.folderName
  }

  /** The store invariant: every id is below the counter, every brand name
      occurs once, a brand has at most one phone per non-null folder name,
      and every row points at an existing parent row. */
  ghost predicate Valid(t: Tables)
  {
    && (forall id :: id in t.brands ==> id < t.nextId)
    && (forall id :: id in t.phones ==> id < t.nextId)
    && (forall id :: id in t.details ==> id < t.nextId)
    && (forall id :: id in t.images ==> id < t.nextId)
    && (forall a, b :: a in t.brands && b in t.brands && t.brands[a].name == t.brands[b].name ==> a == b)
    && (forall a, b :: a in t.phones && b in t.phones && SameKey(t.phones[a], t.phones[b]) ==> a == b)
    && (forall id :: id in t.phones ==> t.phones[id].brandId in t.brands)
    && (forall id :: id in t.details ==> t.details[id].phoneId in t.phones)
    && (forall id :: id in t.images ==> t.images[id].phoneId in t.phones)
  }

  // ---------------------------------------------------------------------------
  // Lookups

  lemma Singleton(ids: set<nat>, id: nat)
    requires |ids| == 1 && id in ids
    ensures ids == {id}
  {
    assert |ids - {id}| == 0;
  }

  /** `.single()`: the id of the one selected row; `null` when none or several are selected. */
  ghost function Single(ids: set<nat>): (r: Option<nat>)
    ensures r.Some? <==> |ids| == 1
    ensures r.Some? ==> ids == {r.value}
  {
    if |ids| == 1 then
      var id :| id in ids;
      Singleton(ids, id);
      Some(id)
    else None
  }

  /** The brands selected by `.eq('name', name)`. */
  ghost function BrandsNamed(t: Tables, name: string): set<nat>
  {
    set id | id in t.brands && t.brands[id].name == name
  }

  /** The lookup key of the phone: the folder name when it is truthy, else
      the page's phone name; `None` when neither is there. */
  function PhoneKey(folderName: Option<string>, metadata: map<string, string>): (key: Option<string>)
    ensures key.None? <==> !Truthy(folderName) && PhoneNameKey !in metadata
    ensures Truthy(key) <==> Truthy(folderName) || (PhoneNameKey in metadata && metadata[PhoneNameKey] != [])
    ensures key.Some? ==> key == folderName || (PhoneNameKey in metadata && key.value == metadata[PhoneNameKey])
  {
    if Truthy(folderName) then folderName else Get(metadata, PhoneNameKey)
  }

  /** The phones selected by `.eq('brand_id', brandId).eq('folder_name', key)`;
      a missing key selects nothing, as no `NULL` equals anything. */
  ghost function PhonesKeyed(t: Tables, brandId: nat, key: Option<string>): set<nat>
  {
    if key.None? then {}
    else set id | id in t.phones && t.phones[id].brandId == brandId && t.phones[id].folderName == key
  }

  /** The ids of the detail rows of a phone. */
  ghost function DetailIds(t: Tables, phoneId: nat): set<nat>
  {
    set id | id in t.details && t.details[id].phoneId == phoneId
  }

  /** The ids of the image rows of a phone. */
  ghost function ImageIds(t: Tables, phoneId: nat): set<nat>
  {
    set id | id in t.images && t.images[id].phoneId == phoneId
  }

  /** The detail rows of a phone, without their ids. */
  ghost function DetailRows(t: Tables, phoneId: nat): set<Detail>
  {
    set id | id in t.details && t.details[id].phoneId == phoneId :: t.details[id]
  }

  /** The image rows of a phone, without their ids. */
  ghost function ImageRows(t: Tables, phoneId: nat): set<ImageRow>
  {
    set id | id in t.images && t.images[id].phoneId == phoneId :: t.images[id]
  }

  // ---------------------------------------------------------------------------
  // The steps

  /** `brandName.replace('Phones', '')`: only the first occurrence goes. */
  function DisplayName(brandName: string): string
  {
    ReplaceFirst(brandName, "Phones", "")
  }

  /** Get or create the brand named `name`. */
  ghost function GetOrCreateBrand(t: Tables, name: string): Placed
  {
    match Single(BrandsNamed(t, name))
    case Some(id) => Placed(t, id)
    case None =>
      Placed(t.(brands := t.brands[t.nextId := Brand(name, DisplayName(name))], nextId := t.nextId + 1), t.nextId)
  }

  /** `x || null` for a possibly absent string. */
  function OrNull(s: Option<string>): (r: Option<string>)
    ensures r.Some? <==> Truthy(s)
    ensures r.Some? ==> r == s
  {
    if Truthy(s) then s else None
  }

  /** The row inserted for a phone that is not in the store yet: named
      after the page's phone name, or `Unknown`; its price and release date
      the truthy metadata or null; its first image the first gallery URL, or
      null without a gallery. */
  function NewPhone(brandId: nat, key: Option<string>, metadata: map<string, string>, gallery: seq<GalleryImage>): (p: Phone)
    ensures p.brandId == brandId && p.folderName == key
    ensures PhoneNameKey in metadata && metadata[PhoneNameKey] != [] ==> p.name == metadata[PhoneNameKey]
    ensures PhoneNameKey !in metadata || metadata[PhoneNameKey] == [] ==> p.name == "Unknown"
    ensures p.price.Some? <==> PriceKey in metadata && metadata[PriceKey] != []
    ensures p.price.Some? ==> p.price.value == metadata[PriceKey]
    ensures p.releaseDate.Some? <==> ReleaseDateKey in metadata && metadata[ReleaseDateKey] != []
    ensures p.releaseDate.Some? ==> p.releaseDate.value == metadata[ReleaseDateKey]
    ensures GalleryShaped(gallery) && gallery != [] ==> p.firstImage == Some(gallery[0].url)
    ensures gallery == [] ==> p.firstImage.None?
  {
    Phone(
      brandId,
      key,
      GetOr(OrNull(Get(metadata, PhoneNameKey)), "Unknown"),
      OrNull(Get(metadata, PriceKey)),
      OrNull(Get(metadata, ReleaseDateKey)),
      if gallery == [] then None else OrNull(Some(gallery[0].url)))
  }

  /** Get or create the phone of brand `brandId` under `key`. */
  ghost function GetOrCreatePhone(t: Tables, brandId: nat, key: Option<string>,
                                  metadata: map<string, string>, gallery: seq<GalleryImage>): Placed
  {
    match Single(PhonesKeyed(t, brandId, key))
    case Some(id) => Placed(t, id)
    case None =>
      Placed(t.(phones := t.phones[t.nextId := NewPhone(brandId, key, metadata, gallery)], nextId := t.nextId + 1), t.nextId)
  }

  /** `delete().eq('phone_id', phoneId)` on the detail rows. */
  function DetailsWithout(details: map<nat, Detail>, phoneId: nat): map<nat, Detail>
  {
    map id | id in details && details[id].phoneId != phoneId :: details[id]
  }

  /** `delete().eq('phone_id', phoneId)` on the image rows. */
  function ImagesWithout(images: map<nat, ImageRow>, phoneId: nat): map<nat, ImageRow>
  {
    map id | id in images && images[id].phoneId != phoneId :: images[id]
  }

  /** Delete the phone's detail rows, then insert one holding the extraction. */
  function ReplaceDetail(t: Tables, phoneId: nat, specs: Specs, metadata: map<string, string>): Tables
  {
    t.(details := DetailsWithout(t.details, phoneId)[t.nextId := Detail(phoneId, specs, metadata, [DetailSource])],
       nextId := t.nextId + 1)
  }

  /** `gallery[i].alt || metadata['Phone Name']` */
  function ImageAlt(img: GalleryImage, metadata: map<string, string>): Option<string>
  {
    if Truthy(img.alt) then img.alt else Get(metadata, PhoneNameKey)
  }

  /** The image row inserted for the `i`-th gallery image. */
  function GalleryRow(phoneId: nat, gallery: seq<GalleryImage>, metadata: map<string, string>, i: nat): ImageRow
    requires i < |gallery|
  {
    ImageRow(phoneId, gallery[i].url, ImageAlt(gallery[i], metadata), GalleryKind, i)
  }

  /** The first `n` iterations of the insertion loop, row `i` getting id `next + i`. */
  function InsertImageRows(images: map<nat, ImageRow>, next: nat, phoneId: nat, gallery: seq<GalleryImage>,
                           metadata: map<string, string>, n: nat): map<nat, ImageRow>
    requires n <= |gallery|
    decreases n
  {
    if n == 0 then images
    else InsertImageRows(images, next, phoneId, gallery, metadata, n - 1)[next + n - 1 := GalleryRow(phoneId, gallery, metadata, n - 1)]
  }

  /** Delete the phone's image rows, then insert one row per gallery image. */
  function ReplaceImages(t: Tables, phoneId: nat, gallery: seq<GalleryImage>, metadata: map<string, string>): Tables
  {
    t.(images := InsertImageRows(ImagesWithout(t.images, phoneId), t.nextId, phoneId, gallery, metadata, |gallery|),
       nextId := t.nextId + |gallery|)
  }

  /** Get or create the brand, then get or create its phone under `key`. */
  ghost function PlacePhone(t: Tables, brandName: string, key: Option<string>,
                            metadata: map<string, string>, gallery: seq<GalleryImage>): Placed
  {
    var brand := GetOrCreateBrand(t, brandName);
    GetOrCreatePhone(brand.tables, brand.id, key, metadata, gallery)
  }

  /** The store-changing part of the handler, given the two extraction results. */
  ghost function Ingest(t: Tables, brandName: string, folderName: Option<string>, ex: Extraction, images: Images): Ingested
  {
    if |ex.specs| == 0 then Ingested(t, NoSpecs)
    else
      var phone := PlacePhone(t, brandName, PhoneKey(folderName, ex.metadata), ex.metadata, images.gallery);
      var t2 := ReplaceDetail(phone.tables, phone.id, ex.specs, ex.metadata);
      var t3 := ReplaceImages(t2, phone.id, images.gallery, ex.metadata);
      Ingested(t3, Stored(phone.id, Get(ex.metadata, PhoneNameKey), |ex.specs|, |images.gallery|))
  }

  // ---------------------------------------------------------------------------
  // What each step does

  /** Under the invariant a name selects at most one brand. */
  lemma BrandsNamedAtMostOne(t: Tables, name: string, id: nat)
    requires Valid(t) && id in BrandsNamed(t, name)
    ensures BrandsNamed(t, name) == {id}
  {
  }

  lemma NoBrandNamed(t: Tables, name: string)
    requires BrandsNamed(t, name) == {}
    ensures forall id :: id in t.brands ==> t.brands[id].name != name
  {
    forall id | id in t.brands ensures t.brands[id].name != name {
      assert id !in BrandsNamed(t, name);
    }
  }

  /** Inserting a brand under a name no brand has keeps the invariant, and
      the name then selects the new brand only. */
  lemma AddBrandSpec(t: Tables, name: string)
    requires Valid(t) && BrandsNamed(t, name) == {}
    ensures var r := t.(brands := t.brands[t.nextId := Brand(name, DisplayName(name))], nextId := t.nextId + 1);
      Valid(r) && BrandsNamed(r, name) == {t.nextId}
  {
    NoBrandNamed(t, name);
    var r := t.(brands := t.brands[t.nextId := Brand(name, DisplayName(name))], nextId := t.nextId + 1);
    assert t.nextId in BrandsNamed(r, name);
  }

  /** An existing brand is reused and nothing changes; otherwise exactly one
      brand is added, under a fresh id, with the first `Phones` removed from
      its display name. Either way the name then selects exactly that brand. */
  lemma GetOrCreateBrandSpec(t: Tables, name: string)
    requires Valid(t)
    ensures var r := GetOrCreateBrand(t, name);
      && Valid(r.tables)
      && r.id in r.tables.brands && BrandsNamed(r.tables, name) == {r.id}
      && r.tables.phones == t.phones && r.tables.details == t.details && r.tables.images == t.images
      && (BrandsNamed(t, name) != {} ==> r.tables == t)
      && (BrandsNamed(t, name) == {} ==>
            && r.id == t.nextId
            && r.tables == t.(brands := t.brands[r.id := Brand(name, DisplayName(name))], nextId := t.nextId + 1))
  {
    if BrandsNamed(t, name) != {} {
      var id :| id in BrandsNamed(t, name);
      BrandsNamedAtMostOne(t, name, id);
    } else {
      AddBrandSpec(t, name);
    }
  }

  /** Under the invariant a non-null key selects at most one phone of a brand. */
  lemma PhonesKeyedAtMostOne(t: Tables, brandId: nat, key: Option<string>, id: nat)
    requires Valid(t) && id in PhonesKeyed(t, brandId, key)
    ensures PhonesKeyed(t, brandId, key) == {id}
  {
    forall id' | id' in PhonesKeyed(t, brandId, key) ensures id' == id {
      assert SameKey(t.phones[id], t.phones[id']);
    }
  }

  lemma NoPhoneKeyed(t: Tables, brandId: nat, key: Option<string>)
    requires key.Some? && PhonesKeyed(t, brandId, key) == {}
    ensures forall id :: id in t.phones && t.phones[id].brandId == brandId ==> t.phones[id].folderName != key
  {
    forall id | id in t.phones && t.phones[id].brandId == brandId ensures t.phones[id].folderName != key {
      assert id !in PhonesKeyed(t, brandId, key);
    }
  }

  /** Inserting a phone of an existing brand under a key no phone of that
      brand has keeps the invariant, and a non-null key then selects the new
      phone only. */
  lemma AddPhoneSpec(t: Tables, phone: Phone)
    requires Valid(t) && phone.brandId in t.brands && PhonesKeyed(t, phone.brandId, phone.folderName) == {}
    ensures var r := t.(phones := t.phones[t.nextId := phone], nextId := t.nextId + 1);
      Valid(r) && (phone.folderName.Some? ==> PhonesKeyed(r, phone.brandId, phone.folderName) == {t.nextId})
  {
    var r := t.(phones := t.phones[t.nextId := phone], nextId := t.nextId + 1);
    if phone.folderName.Some? {
      NoPhoneKeyed(t, phone.brandId, phone.folderName);
      assert t.nextId in PhonesKeyed(r, phone.brandId, phone.folderName);
    }
    forall id | id in t.phones ensures !SameKey(phone, t.phones[id]) && !SameKey(t.phones[id], phone) {
      if phone.folderName.Some? && t.phones[id].brandId == phone.brandId {
        assert id !in PhonesKeyed(t, phone.brandId, phone.folderName);
      }
    }
  }

  /** An existing phone of the brand under the key is reused and nothing
      changes, its fields included; otherwise one phone is added under a
      fresh id. A non-null key then selects exactly that phone. A null key
      never selects a phone, so it always adds one. */
  lemma GetOrCreatePhoneSpec(t: Tables, brandId: nat, key: Option<string>,
                             metadata: map<string, string>, gallery: seq<GalleryImage>)
    requires Valid(t) && brandId in t.brands
    ensures var r := GetOrCreatePhone(t, brandId, key, metadata, gallery);
      && Valid(r.tables)
      && r.id in r.tables.phones && r.tables.phones[r.id].brandId == brandId
      && (key.Some? ==> PhonesKeyed(r.tables, brandId, key) == {r.id})
      && r.tables.brands == t.brands && r.tables.details == t.details && r.tables.images == t.images
      && (forall id :: id in t.phones ==> id in r.tables.phones && r.tables.phones[id] == t.phones[id])
      && (PhonesKeyed(t, brandId, key) != {} ==> r.tables == t)
      && (PhonesKeyed(t, brandId, key) == {} ==>
            && r.id == t.nextId
            && r.tables == t.(phones := t.phones[r.id := NewPhone(brandId, key, metadata, gallery)], nextId := t.nextId + 1))
  {
    if PhonesKeyed(t, brandId, key) != {} {
      var id :| id in PhonesKeyed(t, brandId, key);
      PhonesKeyedAtMostOne(t, brandId, key, id);
      assert GetOrCreatePhone(t, brandId, key, metadata, gallery) == Placed(t, id);
    } else {
      var phone := NewPhone(brandId, key, metadata, gallery);
      var r := t.(phones := t.phones[t.nextId := phone], nextId := t.nextId + 1);
      assert GetOrCreatePhone(t, brandId, key, metadata, gallery) == Placed(r, t.nextId);
      AddPhoneSpec(t, phone);
      forall id | id in t.phones ensures id in r.phones && r.phones[id] == t.phones[id] {
        assert id < t.nextId;
      }
    }
  }

  /** After the lookups the invariant holds, the brand name selects the
      phone's brand and a non-null key selects the phone. No detail or image
      row changes. */
  lemma PlacePhoneSpec(t: Tables, brandName: string, key: Option<string>,
                       metadata: map<string, string>, gallery: seq<GalleryImage>)
    requires Valid(t)
    ensures var r := PlacePhone(t, brandName, key, metadata, gallery);
      && Valid(r.tables)
      && r.id in r.tables.phones
      && BrandsNamed(r.tables, brandName) == {r.tables.phones[r.id].brandId}
      && (key.Some? ==> PhonesKeyed(r.tables, r.tables.phones[r.id].brandId, key) == {r.id})
      && r.tables.details == t.details && r.tables.images == t.images
      && (forall id :: id in t.phones ==> id in r.tables.phones && r.tables.phones[id] == t.phones[id])
  {
    var b := GetOrCreateBrand(t, brandName);
    GetOrCreateBrandSpec(t, brandName);
    GetOrCreatePhoneSpec(b.tables, b.id, key, metadata, gallery);
  }

  /** Which brand an ingestion uses: the brand of that name when there is
      one, kept as it was, else a new one. */
  lemma PlaceBrandChoice(t: Tables, brandName: string, key: Option<string>,
                         metadata: map<string, string>, gallery: seq<GalleryImage>)
    requires Valid(t)
    ensures var r := PlacePhone(t, brandName, key, metadata, gallery);
      && r.id in r.tables.phones
      && var brandId := r.tables.phones[r.id].brandId;
      && (BrandsNamed(t, brandName) != {} ==> r.tables.brands == t.brands && BrandsNamed(t, brandName) == {brandId})
      && (BrandsNamed(t, brandName) == {} ==>
            brandId !in t.brands && r.tables.brands == t.brands[brandId := Brand(brandName, DisplayName(brandName))])
  {
    var b := GetOrCreateBrand(t, brandName);
    GetOrCreateBrandSpec(t, brandName);
    GetOrCreatePhoneSpec(b.tables, b.id, key, metadata, gallery);
  }

  /** Which phone an ingestion uses: the phone of the brand under the key
      when there is one, kept as it was, else a new row built from the page.
      A missing key always makes a new phone. */
  lemma PlacePhoneChoice(t: Tables, brandName: string, key: Option<string>,
                         metadata: map<string, string>, gallery: seq<GalleryImage>)
    requires Valid(t)
    ensures var r := PlacePhone(t, brandName, key, metadata, gallery);
      var p := r.id;
      && p in r.tables.phones
      && (key.None? ==> p !in t.phones)
      && (forall id :: (id in t.phones && key.Some? && t.phones[id].folderName == key &&
                        t.phones[id].brandId in BrandsNamed(t, brandName)) ==> p == id)
      && (p in t.phones ==> r.tables.phones == t.phones)
      && (p !in t.phones ==> r.tables.phones == t.phones[p := NewPhone(r.tables.phones[p].brandId, key, metadata, gallery)])
  {
    var b := GetOrCreateBrand(t, brandName);
    GetOrCreateBrandSpec(t, brandName);
    var r := GetOrCreatePhone(b.tables, b.id, key, metadata, gallery);
    GetOrCreatePhoneSpec(b.tables, b.id, key, metadata, gallery);
    var p := r.id;
    forall id | id in t.phones && key.Some? && t.phones[id].folderName == key && t.phones[id].brandId in BrandsNamed(t, brandName)
      ensures p == id
    {
      assert b.tables == t;
      assert id in PhonesKeyed(b.tables, b.id, key);
    }
  }

  /** New detail rows that point at existing phones, under ids below a
      counter that has not gone down, keep the invariant. */
  lemma ValidWithDetails(t: Tables, details: map<nat, Detail>, nextId: nat)
    requires Valid(t) && t.nextId <= nextId
    requires forall id :: id in details ==> id < nextId && details[id].phoneId in t.phones
    ensures Valid(t.(details := details, nextId := nextId))
  {
  }

  /** The same for new image rows. */
  lemma ValidWithImages(t: Tables, images: map<nat, ImageRow>, nextId: nat)
    requires Valid(t) && t.nextId <= nextId
    requires forall id :: id in images ==> id < nextId && images[id].phoneId in t.phones
    ensures Valid(t.(images := images, nextId := nextId))
  {
  }

  /** After the replacement the phone has exactly one detail row, holding the
      extraction and the source list `["91mobiles"]`; the detail rows of
      every other phone and the other tables are untouched. */
  lemma ReplaceDetailRows(t: Tables, phoneId: nat, specs: Specs, metadata: map<string, string>)
    requires forall id :: id in t.details ==> id < t.nextId
    ensures var r := ReplaceDetail(t, phoneId, specs, metadata);
      && DetailIds(r, phoneId) == {t.nextId}
      && r.details[t.nextId] == Detail(phoneId, specs, metadata, [DetailSource])
      && (forall id :: id in t.details && t.details[id].phoneId != phoneId ==> id in r.details && r.details[id] == t.details[id])
      && (forall id :: id in r.details && id != t.nextId ==> id in t.details && t.details[id].phoneId != phoneId)
      && r.brands == t.brands && r.phones == t.phones && r.images == t.images
  {
    var kept := DetailsWithout(t.details, phoneId);
    var r := ReplaceDetail(t, phoneId, specs, metadata);
    forall id | id in t.details && t.details[id].phoneId != phoneId ensures id in r.details && r.details[id] == t.details[id] {
      assert id in kept && id < t.nextId;
    }
    forall id | id in r.details && id != t.nextId ensures id in t.details && t.details[id].phoneId != phoneId {
      assert id in kept;
    }
  }

  /** The replacement keeps the invariant. */
  lemma ReplaceDetailValid(t: Tables, phoneId: nat, specs: Specs, metadata: map<string, string>)
    requires Valid(t) && phoneId in t.phones
    ensures Valid(ReplaceDetail(t, phoneId, specs, metadata))
  {
    var r := ReplaceDetail(t, phoneId, specs, metadata);
    ValidWithDetails(t, r.details, r.nextId);
  }

  /** The insertion loop adds rows `0 .. n-1` under the ids `next .. next+n-1`
      and keeps every row that was there. */
  lemma {:induction false} InsertImageRowsSpec(images: map<nat, ImageRow>, next: nat, phoneId: nat,
                                              gallery: seq<GalleryImage>, metadata: map<string, string>, n: nat)
    requires n <= |gallery|
    requires forall id :: id in images ==> id < next
    ensures var r := InsertImageRows(images, next, phoneId, gallery, metadata, n);
      && (forall id :: id in r <==> id in images || next <= id < next + n)
      && (forall id :: id in images ==> r[id] == images[id])
      && (forall i :: 0 <= i < n ==> next + i in r && r[next + i] == GalleryRow(phoneId, gallery, metadata, i))
    decreases n
  {
    if n > 0 {
      InsertImageRowsSpec(images, next, phoneId, gallery, metadata, n - 1);
    }
  }

  /** After the replacement the phone's image rows are exactly its gallery, in
      order, under fresh ids: row `i` holds the `i`-th URL, its alt falling
      back to the phone name, and `image_index` `i`. */
  lemma ReplaceImagesRows(t: Tables, phoneId: nat, gallery: seq<GalleryImage>, metadata: map<string, string>)
    requires Valid(t)
    ensures var r := ReplaceImages(t, phoneId, gallery, metadata);
      && (forall id :: id in ImageIds(r, phoneId) <==> t.nextId <= id < t.nextId + |gallery|)
      && (forall i :: 0 <= i < |gallery| ==>
            t.nextId + i in r.images && r.images[t.nextId + i] == GalleryRow(phoneId, gallery, metadata, i))
  {
    var kept := ImagesWithout(t.images, phoneId);
    InsertImageRowsSpec(kept, t.nextId, phoneId, gallery, metadata, |gallery|);
    var r := ReplaceImages(t, phoneId, gallery, metadata);
    forall id ensures id in ImageIds(r, phoneId) <==> t.nextId <= id < t.nextId + |gallery| {
      if t.nextId <= id < t.nextId + |gallery| {
        var i := id - t.nextId;
        assert r.images[t.nextId + i] == GalleryRow(phoneId, gallery, metadata, i);
      }
    }
  }

  /** The replacement keeps every image row of another phone under its id,
      adds no other row, and keeps the other tables. */
  lemma ReplaceImagesKeeps(t: Tables, phoneId: nat, gallery: seq<GalleryImage>, metadata: map<string, string>)
    requires forall id :: id in t.images ==> id < t.nextId
    ensures var r := ReplaceImages(t, phoneId, gallery, metadata);
      && (forall id :: id in t.images && t.images[id].phoneId != phoneId ==> id in r.images && r.images[id] == t.images[id])
      && (forall id :: id in r.images && !(t.nextId <= id < t.nextId + |gallery|) ==>
            id in t.images && t.images[id].phoneId != phoneId)
      && (forall id :: id in r.images && r.images[id].phoneId != phoneId ==> id in t.images && r.images[id] == t.images[id])
      && r.brands == t.brands && r.phones == t.phones && r.details == t.details
  {
    var kept := ImagesWithout(t.images, phoneId);
    InsertImageRowsSpec(kept, t.nextId, phoneId, gallery, metadata, |gallery|);
    var r := ReplaceImages(t, phoneId, gallery, metadata);
    forall id | id in r.images && id !in kept ensures r.images[id].phoneId == phoneId {
      var i := id - t.nextId;
      assert r.images[t.nextId + i] == GalleryRow(phoneId, gallery, metadata, i);
    }
  }

  /** The replacement keeps the invariant. */
  lemma ReplaceImagesValid(t: Tables, phoneId: nat, gallery: seq<GalleryImage>, metadata: map<string, string>)
    requires Valid(t) && phoneId in t.phones
    ensures Valid(ReplaceImages(t, phoneId, gallery, metadata))
  {
    var kept := ImagesWithout(t.images, phoneId);
    InsertImageRowsSpec(kept, t.nextId, phoneId, gallery, metadata, |gallery|);
    var r := ReplaceImages(t, phoneId, gallery, metadata);
    forall id | id in r.images ensures r.images[id].phoneId in t.phones && id < r.nextId {
      if id !in kept {
        var i := id - t.nextId;
        assert r.images[t.nextId + i] == GalleryRow(phoneId, gallery, metadata, i);
      }
    }
    ValidWithImages(t, r.images, r.nextId);
  }

  // ---------------------------------------------------------------------------
  // One ingestion

  /** The gallery's rows for a phone, without ids. */
  ghost function GalleryRows(phoneId: nat, gallery: seq<GalleryImage>, metadata: map<string, string>): set<ImageRow>
  {
    set i | 0 <= i < |gallery| :: GalleryRow(phoneId, gallery, metadata, i)
  }

  lemma DetailRowsOfOne(t: Tables, phoneId: nat, id: nat)
    requires DetailIds(t, phoneId) == {id}
    ensures DetailRows(t, phoneId) == {t.details[id]}
  {
    assert id in DetailIds(t, phoneId);
    forall d | d in DetailRows(t, phoneId) ensures d == t.details[id] {
      var id' :| id' in t.details && t.details[id'].phoneId == phoneId && t.details[id'] == d;
      assert id' in DetailIds(t, phoneId);
    }
  }

  /** The image rows of the phone after the replacement, as a set. */
  lemma ReplaceImagesRowSet(t: Tables, phoneId: nat, gallery: seq<GalleryImage>, metadata: map<string, string>)
    requires Valid(t)
    ensures ImageRows(ReplaceImages(t, phoneId, gallery, metadata), phoneId) == GalleryRows(phoneId, gallery, metadata)
  {
    ReplaceImagesRows(t, phoneId, gallery, metadata);
    var r := ReplaceImages(t, phoneId, gallery, metadata);
    var rows := GalleryRows(phoneId, gallery, metadata);
    forall row | row in ImageRows(r, phoneId) ensures row in rows {
      var id :| id in r.images && r.images[id].phoneId == phoneId && r.images[id] == row;
      assert id in ImageIds(r, phoneId);
      var i: nat := id - t.nextId;
      assert GalleryRow(phoneId, gallery, metadata, i) == r.images[t.nextId + i];
    }
    forall row | row in rows ensures row in ImageRows(r, phoneId) {
      var i :| 0 <= i < |gallery| && row == GalleryRow(phoneId, gallery, metadata, i);
      assert r.images[t.nextId + i] == row;
    }
  }

  /** After the detail replacement the phone has one detail row, the new one. */
  lemma ReplaceDetailOne(t: Tables, phoneId: nat, specs: Specs, metadata: map<string, string>)
    requires forall id :: id in t.details ==> id < t.nextId
    ensures var r := ReplaceDetail(t, phoneId, specs, metadata);
      |DetailIds(r, phoneId)| == 1 && DetailRows(r, phoneId) == {Detail(phoneId, specs, metadata, [DetailSource])}
  {
    ReplaceDetailRows(t, phoneId, specs, metadata);
    DetailRowsOfOne(ReplaceDetail(t, phoneId, specs, metadata), phoneId, t.nextId);
  }

  /** The ids from `lo` up to, not including, `lo + n`. */
  ghost function IdRange(lo: nat, n: nat): set<nat>
  {
    if n == 0 then {} else IdRange(lo, n - 1) + {lo + n - 1}
  }

  /** The range holds exactly the `n` ids from `lo` on. */
  lemma {:induction false} IdRangeSize(lo: nat, n: nat)
    ensures |IdRange(lo, n)| == n
    ensures forall id :: id in IdRange(lo, n) <==> lo <= id < lo + n
  {
    if n > 0 {
      IdRangeSize(lo, n - 1);
    }
  }

  /** Both replacements together: the phone ends with exactly one detail row,
      holding the extraction, and with exactly its gallery as image rows, one
      row per gallery entry. */
  lemma ReplaceBothSpec(t: Tables, phoneId: nat, specs: Specs, metadata: map<string, string>, gallery: seq<GalleryImage>)
    requires Valid(t) && phoneId in t.phones
    ensures var r := ReplaceImages(ReplaceDetail(t, phoneId, specs, metadata), phoneId, gallery, metadata);
      && Valid(r)
      && r.brands == t.brands && r.phones == t.phones
      && |DetailIds(r, phoneId)| == 1
      && DetailRows(r, phoneId) == {Detail(phoneId, specs, metadata, [DetailSource])}
      && ImageRows(r, phoneId) == GalleryRows(phoneId, gallery, metadata)
      && |ImageIds(r, phoneId)| == |gallery|
  {
    var t2 := ReplaceDetail(t, phoneId, specs, metadata);
    var r := ReplaceImages(t2, phoneId, gallery, metadata);
    ReplaceDetailOne(t, phoneId, specs, metadata);
    ReplaceDetailValid(t, phoneId, specs, metadata);
    assert t2.phones == t.phones;
    ReplaceImagesValid(t2, phoneId, gallery, metadata);
    ReplaceImagesRowSet(t2, phoneId, gallery, metadata);
    assert r.details == t2.details;
    ReplaceImagesRows(t2, phoneId, gallery, metadata);
    IdRangeSize(t2.nextId, |gallery|);
    assert ImageIds(r, phoneId) == IdRange(t2.nextId, |gallery|);
  }

  lemma DetailRowsKept(t: Tables, r: Tables, q: nat)
    requires forall id :: id in t.details && t.details[id].phoneId == q ==> id in r.details && r.details[id] == t.details[id]
    requires forall id :: id in r.details && r.details[id].phoneId == q ==> id in t.details && r.details[id] == t.details[id]
    ensures DetailIds(r, q) == DetailIds(t, q) && DetailRows(r, q) == DetailRows(t, q)
  {
    forall d | d in DetailRows(r, q) ensures d in DetailRows(t, q) {
      var id :| id in r.details && r.details[id].phoneId == q && r.details[id] == d;
      assert t.details[id] == d;
    }
    forall d | d in DetailRows(t, q) ensures d in DetailRows(r, q) {
      var id :| id in t.details && t.details[id].phoneId == q && t.details[id] == d;
      assert r.details[id] == d;
    }
  }

  lemma ImageRowsKept(t: Tables, r: Tables, q: nat)
    requires forall id :: id in t.images && t.images[id].phoneId == q ==> id in r.images && r.images[id] == t.images[id]
    requires forall id :: id in r.images && r.images[id].phoneId == q ==> id in t.images && r.images[id] == t.images[id]
    ensures ImageIds(r, q) == ImageIds(t, q) && ImageRows(r, q) == ImageRows(t, q)
  {
    forall row | row in ImageRows(r, q) ensures row in ImageRows(t, q) {
      var id :| id in r.images && r.images[id].phoneId == q && r.images[id] == row;
      assert t.images[id] == row;
    }
    forall row | row in ImageRows(t, q) ensures row in ImageRows(r, q) {
      var id :| id in t.images && t.images[id].phoneId == q && t.images[id] == row;
      assert r.images[id] == row;
    }
  }

  /** The detail replacement leaves the detail rows of every other phone as
      they were, ids included. */
  lemma ReplaceDetailOthers(t: Tables, phoneId: nat, q: nat, specs: Specs, metadata: map<string, string>)
    requires forall id :: id in t.details ==> id < t.nextId
    requires q != phoneId
    ensures var r := ReplaceDetail(t, phoneId, specs, metadata);
      DetailIds(r, q) == DetailIds(t, q) && DetailRows(r, q) == DetailRows(t, q)
  {
    ReplaceDetailRows(t, phoneId, specs, metadata);
    DetailRowsKept(t, ReplaceDetail(t, phoneId, specs, metadata), q);
  }

  /** The image replacement leaves the image rows of every other phone as
      they were, ids included. */
  lemma ReplaceImagesOthers(t: Tables, phoneId: nat, q: nat, gallery: seq<GalleryImage>, metadata: map<string, string>)
    requires forall id :: id in t.images ==> id < t.nextId
    requires q != phoneId
    ensures var r := ReplaceImages(t, phoneId, gallery, metadata);
      ImageIds(r, q) == ImageIds(t, q) && ImageRows(r, q) == ImageRows(t, q)
  {
    ReplaceImagesKeeps(t, phoneId, gallery, metadata);
    ImageRowsKept(t, ReplaceImages(t, phoneId, gallery, metadata), q);
  }

  /** Both replacements leave the detail and image rows of every other phone
      as they were, ids included. */
  lemma ReplaceBothOthers(t: Tables, phoneId: nat, q: nat, specs: Specs, metadata: map<string, string>, gallery: seq<GalleryImage>)
    requires Valid(t) && q != phoneId
    ensures var r := ReplaceImages(ReplaceDetail(t, phoneId, specs, metadata), phoneId, gallery, metadata);
      && DetailIds(r, q) == DetailIds(t, q) && DetailRows(r, q) == DetailRows(t, q)
      && ImageIds(r, q) == ImageIds(t, q) && ImageRows(r, q) == ImageRows(t, q)
  {
    var t2 := ReplaceDetail(t, phoneId, specs, metadata);
    ReplaceDetailOthers(t, phoneId, q, specs, metadata);
    assert forall id :: id in t2.images ==> id < t2.nextId;
    ReplaceImagesOthers(t2, phoneId, q, gallery, metadata);
  }

  /** An ingestion of a page without specification changes nothing. One with
      a specification keeps the invariant and leaves the phone, found or
      created under the brand of that name, with exactly one detail row
      holding the extraction and with exactly its gallery as image rows, one
      row per gallery entry. */
  lemma IngestSpec(t: Tables, brandName: string, folderName: Option<string>, ex: Extraction, images: Images)
    requires Valid(t)
    ensures var r := Ingest(t, brandName, folderName, ex, images);
      && Valid(r.tables)
      && (|ex.specs| == 0 ==> r == Ingested(t, NoSpecs))
      && (|ex.specs| > 0 ==>
            && r.outcome == Stored(r.outcome.phoneId, Get(ex.metadata, PhoneNameKey), |ex.specs|, |images.gallery|)
            && var p := r.outcome.phoneId;
            && p in r.tables.phones
            && BrandsNamed(r.tables, brandName) == {r.tables.phones[p].brandId}
            && |DetailIds(r.tables, p)| == 1
            && DetailRows(r.tables, p) == {Detail(p, ex.specs, ex.metadata, [DetailSource])}
            && ImageRows(r.tables, p) == GalleryRows(p, images.gallery, ex.metadata)
            && |ImageIds(r.tables, p)| == |images.gallery|)
  {
    if |ex.specs| > 0 {
      var ph := PlacePhone(t, brandName, PhoneKey(folderName, ex.metadata), ex.metadata, images.gallery);
      PlacePhoneSpec(t, brandName, PhoneKey(folderName, ex.metadata), ex.metadata, images.gallery);
      ReplaceBothSpec(ph.tables, ph.id, ex.specs, ex.metadata, images.gallery);
    }
  }

  /** The brand and the phone an ingestion stores under, as chosen by the
      lookups; see `PlacePhoneSpec`. */
  lemma IngestPhoneSpec(t: Tables, brandName: string, folderName: Option<string>, ex: Extraction, images: Images)
    requires Valid(t) && |ex.specs| > 0
    ensures var r := Ingest(t, brandName, folderName, ex, images);
      var p := r.outcome.phoneId;
      var key := PhoneKey(folderName, ex.metadata);
      && r.outcome.Stored?
      && p in r.tables.phones
      && var brandId := r.tables.phones[p].brandId;
      && (BrandsNamed(t, brandName) != {} ==> r.tables.brands == t.brands && BrandsNamed(t, brandName) == {brandId})
      && (BrandsNamed(t, brandName) == {} ==>
            brandId !in t.brands && r.tables.brands == t.brands[brandId := Brand(brandName, DisplayName(brandName))])
      && (key.None? ==> p !in t.phones)
      && (forall id :: (id in t.phones && key.Some? && t.phones[id].folderName == key &&
                        t.phones[id].brandId in BrandsNamed(t, brandName)) ==> p == id)
      && (p in t.phones ==> r.tables.phones == t.phones)
      && (p !in t.phones ==> r.tables.phones == t.phones[p := NewPhone(brandId, key, ex.metadata, images.gallery)])
  {
    PlaceBrandChoice(t, brandName, PhoneKey(folderName, ex.metadata), ex.metadata, images.gallery);
    PlacePhoneChoice(t, brandName, PhoneKey(folderName, ex.metadata), ex.metadata, images.gallery);
  }

  /** An ingestion leaves every other phone's row, its detail rows and its
      image rows as they were. */
  lemma IngestKeepsOthers(t: Tables, brandName: string, folderName: Option<string>, ex: Extraction, images: Images, q: nat)
    requires Valid(t)
    requires var r := Ingest(t, brandName, folderName, ex, images); r.outcome.Stored? ==> q != r.outcome.phoneId
    ensures var r := Ingest(t, brandName, folderName, ex, images);
      && (q in t.phones ==> q in r.tables.phones && r.tables.phones[q] == t.phones[q])
      && DetailIds(r.tables, q) == DetailIds(t, q)
      && DetailRows(r.tables, q) == DetailRows(t, q)
      && ImageIds(r.tables, q) == ImageIds(t, q)
      && ImageRows(r.tables, q) == ImageRows(t, q)
  {
    if |ex.specs| > 0 {
      var ph := PlacePhone(t, brandName, PhoneKey(folderName, ex.metadata), ex.metadata, images.gallery);
      PlacePhoneSpec(t, brandName, PhoneKey(folderName, ex.metadata), ex.metadata, images.gallery);
      ReplaceBothOthers(ph.tables, ph.id, q, ex.specs, ex.metadata, images.gallery);
      assert DetailIds(ph.tables, q) == DetailIds(t, q);
      assert DetailRows(ph.tables, q) == DetailRows(t, q);
      assert ImageIds(ph.tables, q) == ImageIds(t, q);
      assert ImageRows(ph.tables, q) == ImageRows(t, q);
    }
  }

  /** An ingestion keeps every phone at no more than one detail row. */
  lemma IngestKeepsOneDetail(t: Tables, brandName: string, folderName: Option<string>, ex: Extraction, images: Images)
    requires Valid(t)
    requires forall q :: |DetailIds(t, q)| <= 1
    ensures var r := Ingest(t, brandName, folderName, ex, images);
      forall q :: |DetailIds(r.tables, q)| <= 1
  {
    var r := Ingest(t, brandName, folderName, ex, images);
    IngestSpec(t, brandName, folderName, ex, images);
    forall q ensures |DetailIds(r.tables, q)| <= 1 {
      if !r.outcome.Stored? || q != r.outcome.phoneId {
        IngestKeepsOthers(t, brandName, folderName, ex, images, q);
      }
    }
  }

  /** Lookups that select exactly one brand and one phone place there. */
  lemma PlaceFound(t: Tables, brandName: string, key: Option<string>, metadata: map<string, string>,
                   gallery: seq<GalleryImage>, brandId: nat, phoneId: nat)
    requires BrandsNamed(t, brandName) == {brandId}
    requires PhonesKeyed(t, brandId, key) == {phoneId}
    ensures PlacePhone(t, brandName, key, metadata, gallery) == Placed(t, phoneId)
  {
    assert GetOrCreateBrand(t, brandName) == Placed(t, brandId);
  }

  /** Under a non-null key, the lookups of a later ingestion of the same page
      find the brand and the phone an ingestion stored under. */
  lemma IngestFindsAgain(t: Tables, brandName: string, folderName: Option<string>, ex: Extraction, images: Images)
    requires Valid(t) && PhoneKey(folderName, ex.metadata).Some? && |ex.specs| > 0
    ensures var once := Ingest(t, brandName, folderName, ex, images);
      PlacePhone(once.tables, brandName, PhoneKey(folderName, ex.metadata), ex.metadata, images.gallery)
        == Placed(once.tables, once.outcome.phoneId)
  {
    var key := PhoneKey(folderName, ex.metadata);
    var ph := PlacePhone(t, brandName, key, ex.metadata, images.gallery);
    PlacePhoneSpec(t, brandName, key, ex.metadata, images.gallery);
    var r := ReplaceImages(ReplaceDetail(ph.tables, ph.id, ex.specs, ex.metadata), ph.id, images.gallery, ex.metadata);
    var brandId := ph.tables.phones[ph.id].brandId;
    assert BrandsNamed(r, brandName) == BrandsNamed(ph.tables, brandName);
    assert PhonesKeyed(r, brandId, key) == PhonesKeyed(ph.tables, brandId, key);
    PlaceFound(r, brandName, key, ex.metadata, images.gallery, brandId, ph.id);
  }

  /** Under a non-null key, ingesting the same page twice is the same as
      ingesting it once: the second run finds the brand and the phone the
      first one stored under, reports the same outcome and leaves every row
      as it was, up to the ids of the replaced detail and image rows. */
  lemma IngestTwice(t: Tables, brandName: string, folderName: Option<string>, ex: Extraction, images: Images)
    requires Valid(t) && PhoneKey(folderName, ex.metadata).Some?
    ensures var once := Ingest(t, brandName, folderName, ex, images);
      var twice := Ingest(once.tables, brandName, folderName, ex, images);
      && twice.outcome == once.outcome
      && twice.tables.brands == once.tables.brands
      && twice.tables.phones == once.tables.phones
      && (forall q :: DetailRows(twice.tables, q) == DetailRows(once.tables, q))
      && (forall q :: ImageRows(twice.tables, q) == ImageRows(once.tables, q))
  {
    if |ex.specs| > 0 {
      var once := Ingest(t, brandName, folderName, ex, images);
      IngestSpec(t, brandName, folderName, ex, images);
      IngestFindsAgain(t, brandName, folderName, ex, images);
      var twice := Ingest(once.tables, brandName, folderName, ex, images);
      var p := once.outcome.phoneId;
      assert twice.outcome == once.outcome;
      IngestSpec(once.tables, brandName, folderName, ex, images);
      forall q ensures DetailRows(twice.tables, q) == DetailRows(once.tables, q)
                    && ImageRows(twice.tables, q) == ImageRows(once.tables, q)
      {
        if q != p {
          IngestKeepsOthers(once.tables, brandName, folderName, ex, images, q);
        }
      }
    }
  }

  /** A second ingestion of the same page leaves every phone with as many
      image rows as the first one left it. */
  lemma IngestTwiceImageCount(t: Tables, brandName: string, folderName: Option<string>, ex: Extraction, images: Images, q: nat)
    requires Valid(t) && PhoneKey(folderName, ex.metadata).Some?
    ensures var once := Ingest(t, brandName, folderName, ex, images);
      var twice := Ingest(once.tables, brandName, folderName, ex, images);
      |ImageIds(twice.tables, q)| == |ImageIds(once.tables, q)|
  {
    if |ex.specs| > 0 {
      var once := Ingest(t, brandName, folderName, ex, images);
      IngestSpec(t, brandName, folderName, ex, images);
      IngestFindsAgain(t, brandName, folderName, ex, images);
      IngestSpec(once.tables, brandName, folderName, ex, images);
      if q != once.outcome.phoneId {
        IngestKeepsOthers(once.tables, brandName, folderName, ex, images, q);
      }
    }
  }
}
