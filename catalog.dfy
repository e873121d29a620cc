/** The product table as values: the record type, the record built by a create,
    the merge done by an update, find-first lookup and remove-all deletion,
    with the properties that relate them. */
module Catalog {
  import opened Values
  import opened Decimal

  const UPLOADS_PREFIX: string := "/uploads/"

  /** One product record. `image` is null (None) or a path under /uploads/. */
  datatype Product = Product(id: string, name: Field, price: Field, description: Field, image: Option<string>)

  /** What a create or update request supplies: the three body fields and, when
      a file part was uploaded, the name under which it was stored. */
  datatype Form = Form(name: Field, price: Field, description: Field, upload: Option<string>)

  /** The public path of a stored upload. */
  function ImagePath(filename: string): (r: string)
    ensures |r| == |UPLOADS_PREFIX| + |filename|
    ensures r[..|UPLOADS_PREFIX|] == UPLOADS_PREFIX && r[|UPLOADS_PREFIX|..] == filename
  {
    UPLOADS_PREFIX + filename
  }

  /** The `image` value of a new record: null without an upload. */
  function ImageOf(upload: Option<string>): (r: Option<string>)
    ensures r.None? <==> upload.None?
    ensures upload.Some? ==> r.value == ImagePath(upload.value)
  {
    match upload
    case None => None
    case Some(f) => Some(ImagePath(f))
  }

  /** The record a create request builds at clock value `now`. */
  function NewProduct(now: nat, form: Form): (p: Product)
    ensures Canonical(p.id) && ParseDecimal(p.id) == now
    ensures p.name == form.name && p.price == form.price && p.description == form.description
    ensures p.image.None? <==> form.upload.None?
    ensures form.upload.Some? ==> p.image.value == ImagePath(form.upload.value)
  {
    ParseToDecimal(now);
    Product(ToDecimal(now), form.name, form.price, form.description, ImageOf(form.upload))
  }

  /** The record an update request leaves behind: each text field takes the
      incoming value when that value is truthy and keeps the old one otherwise;
      the image is replaced only by a new upload; the id never changes. */
  function Merge(p: Product, form: Form): (r: Product)
    ensures r.id == p.id
    ensures r.name == (if Truthy(form.name) then form.name else p.name)
    ensures r.price == (if Truthy(form.price) then form.price else p.price)
    ensures r.description == (if Truthy(form.description) then form.description else p.description)
    ensures r.image == (if form.upload.Some? then Some(ImagePath(form.upload.value)) else p.image)
  {
    p.(name := Or(form.name, p.name),
       price := Or(form.price, p.price),
       description := Or(form.description, p.description),
       image := if form.upload.Some? then ImageOf(form.upload) else p.image)
  }

  /** The position of the first record whose id equals `id`. */
  function FirstIndex(ps: seq<Product>, id: string): (r: Option<nat>)
    ensures r.Some? ==> r.value < |ps| && ps[r.value].id == id
    ensures r.Some? ==> forall j :: 0 <= j < r.value ==> ps[j].id != id
    ensures r.None? <==> forall j :: 0 <= j < |ps| ==> ps[j].id != id
  {
    if ps == [] then None
    else if ps[0].id == id then Some(0)
    else match FirstIndex(ps[1..], id)
      case None => None
      case Some(i) => Some(i + 1)
  }

  /** Lookup by exact id: the first match, as `products.find` returns it. */
  function Find(ps: seq<Product>, id: string): (r: Option<Product>)
    ensures r.Some? ==> r.value.id == id && r.value in ps
    ensures r.Some? ==> exists i :: 0 <= i < |ps| && ps[i] == r.value && forall j :: 0 <= j < i ==> ps[j].id != id
    ensures r.None? <==> forall j :: 0 <= j < |ps| ==> ps[j].id != id
  {
    match FirstIndex(ps, id)
    case None => None
    case Some(i) => Some(ps[i])
  }

  /** The table after an update: only the first match is merged. */
  function UpdateFirst(ps: seq<Product>, id: string, form: Form): (r: seq<Product>)
    ensures |r| == |ps|
    ensures forall k :: 0 <= k < |ps| && FirstIndex(ps, id) != Some(k) ==> r[k] == ps[k]
    ensures FirstIndex(ps, id).Some? ==> r[FirstIndex(ps, id).value] == Merge(ps[FirstIndex(ps, id).value], form)
  {
    match FirstIndex(ps, id)
    case None => ps
    case Some(i) => ps[i := Merge(ps[i], form)]
  }

  /** The table after a delete: every record with that id is filtered out. */
  function RemoveAll(ps: seq<Product>, id: string): (r: seq<Product>)
    ensures |r| <= |ps|
    ensures forall k :: 0 <= k < |r| ==> r[k].id != id && r[k] in ps
  {
    if ps == [] then []
    else if ps[0].id == id then RemoveAll(ps[1..], id)
    else [ps[0]] + RemoveAll(ps[1..], id)
  }

  /** No two records share an id. */
  predicate DistinctIds(ps: seq<Product>)
  {
    forall i, j :: 0 <= i < j < |ps| ==> ps[i].id != ps[j].id
  }

  /** Every id was issued by a create whose clock value lies before `now`. */
  predicate IssuedBefore(ps: seq<Product>, now: nat)
  {
    forall k :: 0 <= k < |ps| ==> Canonical(ps[k].id) && ParseDecimal(ps[k].id) < now
  }

  // ---------------------------------------------------------------- lookup

  /** The first-match position is determined by its defining property. */
  lemma FirstIndexIs(ps: seq<Product>, id: string, i: nat)
    requires i < |ps| && ps[i].id == id
    requires forall j :: 0 <= j < i ==> ps[j].id != id
    ensures FirstIndex(ps, id) == Some(i)
  {
  }

  /** Lookup only looks at ids: two tables with the same ids in the same order
      find at the same position. */
  lemma FirstIndexSameIds(ps: seq<Product>, qs: seq<Product>, id: string)
    requires |ps| == |qs|
    requires forall k :: 0 <= k < |ps| ==> ps[k].id == qs[k].id
    ensures FirstIndex(ps, id) == FirstIndex(qs, id)
  {
  }

  /** A later record with a duplicate id is never the one found. */
  lemma LaterDuplicateShadowed(ps: seq<Product>, id: string, i: nat, j: nat)
    requires i < j < |ps| && ps[i].id == id && ps[j].id == id
    ensures FirstIndex(ps, id).Some? && FirstIndex(ps, id).value <= i
  {
  }

  // ---------------------------------------------------------------- create

  /** After a create, lookup of the new id finds the new record unless an older
      record already holds that id, in which case the older one shadows it. */
  lemma {:induction false} FindAfterCreate(ps: seq<Product>, p: Product)
    ensures Find(ps + [p], p.id) == (if Find(ps, p.id).None? then Some(p) else Find(ps, p.id))
  {
    var qs := ps + [p];
    match FirstIndex(ps, p.id)
    case None =>
      FirstIndexIs(qs, p.id, |ps|);
    case Some(i) =>
      FirstIndexIs(qs, p.id, i);
  }

  /** A create does not change what any other id finds. */
  lemma {:induction false} FindOtherAfterCreate(ps: seq<Product>, p: Product, id: string)
    requires id != p.id
    ensures Find(ps + [p], id) == Find(ps, id)
  {
    var qs := ps + [p];
    match FirstIndex(ps, id)
    case None =>
      assert forall j :: 0 <= j < |qs| ==> qs[j].id != id;
    case Some(i) =>
      FirstIndexIs(qs, id, i);
  }

  /** With a clock that only moves forward, a create keeps ids distinct. */
  lemma CreateKeepsIdsDistinct(ps: seq<Product>, now: nat, form: Form)
    requires DistinctIds(ps) && IssuedBefore(ps, now)
    ensures DistinctIds(ps + [NewProduct(now, form)])
    ensures IssuedBefore(ps + [NewProduct(now, form)], now + 1)
  {
  }

  // ---------------------------------------------------------------- update

  /** An update keeps the length and every id, and changes no record except the
      first match (later duplicates included). */
  lemma UpdateFrame(ps: seq<Product>, id: string, form: Form)
    ensures |UpdateFirst(ps, id, form)| == |ps|
    ensures forall k :: 0 <= k < |ps| ==> UpdateFirst(ps, id, form)[k].id == ps[k].id
    ensures forall k :: 0 <= k < |ps| && FirstIndex(ps, id) != Some(k) ==> UpdateFirst(ps, id, form)[k] == ps[k]
    ensures FirstIndex(ps, id).None? ==> UpdateFirst(ps, id, form) == ps
  {
  }

  /** Lookup after an update returns the merged record, or not-found when the
      id was unknown; every other id finds what it found before. */
  lemma FindAfterUpdate(ps: seq<Product>, id: string, form: Form, other: string)
    ensures Find(UpdateFirst(ps, id, form), id) == (match Find(ps, id) case None => None case Some(p) => Some(Merge(p, form)))
    ensures other != id ==> Find(UpdateFirst(ps, id, form), other) == Find(ps, other)
  {
    var qs := UpdateFirst(ps, id, form);
    UpdateFrame(ps, id, form);
    FirstIndexSameIds(ps, qs, id);
    FirstIndexSameIds(ps, qs, other);
  }

  /** Repeating an update with the same form changes nothing more. */
  lemma MergeIdempotent(p: Product, form: Form)
    ensures Merge(Merge(p, form), form) == Merge(p, form)
  {
  }

  /** A form with only falsy fields and no upload leaves the record as it was. */
  lemma MergeEmptyIsIdentity(p: Product, form: Form)
    requires !Truthy(form.name) && !Truthy(form.price) && !Truthy(form.description) && form.upload.None?
    ensures Merge(p, form) == p
  {
  }

  /** An update never clears anything: a truthy field stays truthy and an image
      once set stays set. */
  lemma MergeNeverClears(p: Product, form: Form)
    ensures Truthy(p.name) ==> Truthy(Merge(p, form).name)
    ensures Truthy(p.price) ==> Truthy(Merge(p, form).price)
    ensures Truthy(p.description) ==> Truthy(Merge(p, form).description)
    ensures p.image.Some? ==> Merge(p, form).image.Some?
  {
  }

  /** Updates keep ids distinct and issued before the clock. */
  lemma UpdateKeepsIdsDistinct(ps: seq<Product>, id: string, form: Form, now: nat)
    requires DistinctIds(ps) && IssuedBefore(ps, now)
    ensures DistinctIds(UpdateFirst(ps, id, form)) && IssuedBefore(UpdateFirst(ps, id, form), now)
  {
  }

  // ---------------------------------------------------------------- delete

  /** Every record whose id differs survives a delete. */
  lemma {:induction false} RemoveAllKeepsOthers(ps: seq<Product>, id: string, p: Product)
    requires p in ps && p.id != id
    ensures p in RemoveAll(ps, id)
  {
    if ps[0] != p {
      RemoveAllKeepsOthers(ps[1..], id, p);
    }
  }

  /** Delete keeps the survivors in their original relative order: it works
      piecewise over any split of the table. */
  lemma {:induction false} RemoveAllConcat(a: seq<Product>, b: seq<Product>, id: string)
    ensures RemoveAll(a + b, id) == RemoveAll(a, id) + RemoveAll(b, id)
  {
    if a == [] {
      assert a + b == b;
    } else {
      assert (a + b)[0] == a[0] && (a + b)[1..] == a[1..] + b;
      RemoveAllConcat(a[1..], b, id);
    }
  }

  /** Deleting an id no record has leaves the table unchanged. */
  lemma {:induction false} RemoveAllMissing(ps: seq<Product>, id: string)
    requires forall k :: 0 <= k < |ps| ==> ps[k].id != id
    ensures RemoveAll(ps, id) == ps
  {
    if ps != [] {
      RemoveAllMissing(ps[1..], id);
    }
  }

  /** Deleting the same id twice is the same as deleting it once. */
  lemma RemoveAllIdempotent(ps: seq<Product>, id: string)
    ensures RemoveAll(RemoveAll(ps, id), id) == RemoveAll(ps, id)
  {
  }

  /** After a delete the id is not found; every other id finds what it found
      before. */
  lemma {:induction false} FindAfterRemoveAll(ps: seq<Product>, id: string, other: string)
    ensures Find(RemoveAll(ps, id), id).None?
    ensures other != id ==> Find(RemoveAll(ps, id), other) == Find(ps, other)
  {
    if ps != [] && other != id {
      FindAfterRemoveAll(ps[1..], id, other);
      if ps[0].id != id {
        assert RemoveAll(ps, id) == [ps[0]] + RemoveAll(ps[1..], id);
      }
    }
  }

  /** With distinct ids the two searches agree: delete removes exactly the
      record that lookup finds, and nothing else. */
  lemma RemoveAllDistinct(ps: seq<Product>, id: string)
    requires DistinctIds(ps)
    ensures FirstIndex(ps, id).Some? ==> RemoveAll(ps, id) == ps[..FirstIndex(ps, id).value] + ps[FirstIndex(ps, id).value + 1..]
    ensures FirstIndex(ps, id).None? ==> RemoveAll(ps, id) == ps
  {
  }

  /** Deletes keep ids distinct and issued before the clock. */
  lemma {:induction false} RemoveAllKeepsIdsDistinct(ps: seq<Product>, id: string, now: nat)
    requires DistinctIds(ps) && IssuedBefore(ps, now)
    ensures DistinctIds(RemoveAll(ps, id)) && IssuedBefore(RemoveAll(ps, id), now)
  {
    if ps != [] {
      RemoveAllKeepsIdsDistinct(ps[1..], id, now);
      var rest := RemoveAll(ps[1..], id);
      assert forall k :: 0 <= k < |rest| ==> rest[k] in ps[1..];
    }
  }
}
