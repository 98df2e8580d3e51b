/** The handler's store, in place: the four tables as fields that each step
    reassigns, one id counter, and each query or insert as a method proved
    against the step of module `Reconcile` it performs. */
module Store {
  import opened Optional
  import opened Page
  import opened SpecExtractor
  import opened ImageExtractor
  import opened Reconcile

  class Store {
    var brands: map<nat, Brand>
    var phones: map<nat, Phone>
    var details: map<nat, Detail>
    var images: map<nat, ImageRow>
    var nextId: nat

    /** The tables as a value. */
    function State(): Tables
      reads this
    {
      Tables(brands, phones, details, images, nextId)
    }

    /** An empty store, which keeps the invariant. */
    constructor ()
      ensures State() == Tables(map[], map[], map[], map[], 0)
      ensures Valid(State())
    {
      brands := map[];
      phones := map[];
      details := map[];
      images := map[];
      nextId := 0;
    }

    /** `from('brands').select('id').eq('name', name).single()` */
    method FindBrand(name: string) returns (id: Option<nat>)
      ensures id == Single(BrandsNamed(State(), name))
      ensures id.Some? ==> id.value in brands && brands[id.value].name == name
    {
      var ids := set k | k in brands && brands[k].name == name;
      assert ids == BrandsNamed(State(), name);
      if |ids| == 1 {
        var k :| k in ids;
        id := Some(k);
      } else {
        id := None;
      }
    }

    /** `from('phones').select('id').eq('brand_id', brandId).eq('folder_name', key).single()` */
    method FindPhone(brandId: nat, key: Option<string>) returns (id: Option<nat>)
      ensures id == Single(PhonesKeyed(State(), brandId, key))
      ensures id.Some? ==> key.Some? && id.value in phones && phones[id.value].brandId == brandId && phones[id.value].folderName == key
    {
      if key.None? {
        id := None;
        return;
      }
      var ids := set k | k in phones && phones[k].brandId == brandId && phones[k].folderName == key;
      assert ids == PhonesKeyed(State(), brandId, key);
      if |ids| == 1 {
        var k :| k in ids;
        id := Some(k);
      } else {
        id := None;
      }
    }

    /** The brand named `name`, inserted first when the lookup finds none. */
    method GetOrCreateBrand(name: string) returns (brandId: nat)
      modifies this
      ensures Placed(State(), brandId) == Reconcile.GetOrCreateBrand(old(State()), name)
    {
      var found := FindBrand(name);
      if found.Some? {
        brandId := found.value;
      } else {
        brandId := nextId;
        brands := brands[brandId := Brand(name, DisplayName(name))];
        nextId := nextId + 1;
      }
    }

    /** The phone of the brand under `key`, inserted first when the lookup finds none. */
    method GetOrCreatePhone(brandId: nat, key: Option<string>, metadata: map<string, string>, gallery: seq<GalleryImage>)
      returns (phoneId: nat)
      modifies this
      ensures Placed(State(), phoneId) == Reconcile.GetOrCreatePhone(old(State()), brandId, key, metadata, gallery)
    {
      var found := FindPhone(brandId, key);
      if found.Some? {
        phoneId := found.value;
      } else {
        phoneId := nextId;
        phones := phones[phoneId := NewPhone(brandId, key, metadata, gallery)];
        nextId := nextId + 1;
      }
    }

    /** Delete the phone's detail rows, then insert the new one. */
    method ReplaceDetail(phoneId: nat, specs: Specs, metadata: map<string, string>)
      modifies this
      ensures State() == Reconcile.ReplaceDetail(old(State()), phoneId, specs, metadata)
    {
      details := DetailsWithout(details, phoneId);
      details := details[nextId := Detail(phoneId, specs, metadata, [DetailSource])];
      nextId := nextId + 1;
    }

    /** Delete the phone's image rows, then insert one row per gallery image,
        one insert at a time. */
    method ReplaceImages(phoneId: nat, gallery: seq<GalleryImage>, metadata: map<string, string>)
      modifies this
      ensures State() == Reconcile.ReplaceImages(old(State()), phoneId, gallery, metadata)
    {
      var kept := ImagesWithout(images, phoneId);
      var base := nextId;
      images := kept;
      for i := 0 to |gallery|
        invariant images == InsertImageRows(kept, base, phoneId, gallery, metadata, i)
        invariant nextId == base + i
        invariant brands == old(brands) && phones == old(phones) && details == old(details)
      {
        images := images[nextId := GalleryRow(phoneId, gallery, metadata, i)];
        nextId := nextId + 1;
      }
    }
  }

  /** The handler from the parsed page on: extract, reject a page without
      specification, otherwise get or create the brand and the phone and
      replace its detail and image rows. The outcome is what the response
      reports. */
  method Ingest(store: Store, brandName: string, folderName: Option<string>, doc: Document) returns (outcome: Outcome)
    modifies store
    ensures Ingested(store.State(), outcome)
      == Reconcile.Ingest(old(store.State()), brandName, folderName, ExtractionOf(doc), ImagesOf(doc))
    ensures old(Valid(store.State())) ==> Valid(store.State())
  {
    ghost var before := store.State();
    var ex := ExtractSpecs(doc);
    var imgs := ExtractImages(doc);
    if |ex.specs| == 0 {
      outcome := NoSpecs;
      return;
    }
    var key := PhoneKey(folderName, ex.metadata);
    var brandId := store.GetOrCreateBrand(brandName);
    var phoneId := store.GetOrCreatePhone(brandId, key, ex.metadata, imgs.gallery);
    store.ReplaceDetail(phoneId, ex.specs, ex.metadata);
    store.ReplaceImages(phoneId, imgs.gallery, ex.metadata);
    outcome := Stored(phoneId, Get(ex.metadata, PhoneNameKey), |ex.specs|, |imgs.gallery|);
    if Valid(before) {
      IngestSpec(before, brandName, folderName, ex, imgs);
    }
  }
}
