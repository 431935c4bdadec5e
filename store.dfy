/** The catalog service's state and its three request handlers. */
module CatalogStore {
  import opened Wrappers
  import opened Packs

  /** The two JSON documents the service keeps. `packDoc` is None while the
      pack document does not exist; a missing count document reads as the
      empty map, so it is the empty map here. */
  class Store {
    var packDoc: Option<seq<Pack>>
    var counts: map<string, nat>

    constructor (packDoc: Option<seq<Pack>>, counts: map<string, nat>)
      ensures this.packDoc == packDoc && this.counts == counts
    {
      this.packDoc := packDoc;
      this.counts := counts;
    }

    /** `load_packs`: the stored collection; when there is no pack document
        the seed is written and returned. */
    method LoadPacks() returns (ps: seq<Pack>)
      modifies this`packDoc
      ensures ps == Loaded(old(packDoc))
      ensures packDoc == Some(ps)
    {
      if packDoc.None? {
        ps := Seed();
        SavePacks(ps);
      } else {
        ps := packDoc.value;
      }
    }

    /** `save_packs`: the whole document is replaced. */
    method SavePacks(ps: seq<Pack>)
      modifies this`packDoc
      ensures packDoc == Some(ps)
    {
      packDoc := Some(ps);
    }

    /** `find_pack`: the first record with the id in the loaded collection. */
    method Find(id: string) returns (r: Option<Pack>)
      modifies this`packDoc
      ensures packDoc == Some(Loaded(old(packDoc)))
      ensures r == Lookup(Loaded(old(packDoc)), id)
    {
      var ps := LoadPacks();
      r := FindPack(ps, id);
    }

    /** The catalog query: every record, in order, with its download count
        or 0. Neither document changes, except that a missing pack document
        is seeded. */
    method Catalog() returns (listing: seq<Listed>)
      modifies this`packDoc
      ensures packDoc == Some(Loaded(old(packDoc)))
      ensures counts == old(counts)
      ensures |listing| == |Loaded(old(packDoc))|
      ensures forall i :: 0 <= i < |listing| ==>
                && listing[i].pack == Loaded(old(packDoc))[i]
                && listing[i].dl == CountOf(counts, listing[i].pack.id)
    {
      var ps := LoadPacks();
      listing := Annotate(ps, counts);
    }

    /** Upload intake with a generated id `pid`: a refused request leaves the
        pack document as it was; an accepted one puts the new record in front
        of the loaded collection and saves it. */
    method Upload(form: UploadForm, pid: string) returns (res: Result<Pack, string>)
      modifies this`packDoc
      ensures res == Intake(form, pid)
      ensures res.Err? ==> packDoc == old(packDoc)
      ensures res.Ok? ==> packDoc == Some([res.value] + Loaded(old(packDoc)))
    {
      res := Intake(form, pid);
      if res.Ok? {
        var ps := LoadPacks();
        ps := [res.value] + ps;
        SavePacks(ps);
      }
    }

    /** Download dispatch: an unknown id is not found and counts nothing;
        a known id's count goes up by one before its first file URL is
        dispatched. */
    method Download(id: string) returns (reply: Reply)
      modifies this
      ensures packDoc == Some(Loaded(old(packDoc)))
      ensures Lookup(Loaded(old(packDoc)), id).None? ==>
                reply == NotFound && counts == old(counts)
      ensures Lookup(Loaded(old(packDoc)), id).Some? ==>
                && counts == Bumped(old(counts), id)
                && reply == DispatchFiles(Lookup(Loaded(old(packDoc)), id).value.files)
    {
      var p := Find(id);
      if p.None? {
        return NotFound;
      }
      counts := Bumped(counts, id);
      reply := DispatchFiles(p.value.files);
    }
  }

  /** The newest record wins a lookup of its id, even when an older record
      carries the same id. */
  lemma {:induction false} NewestRecordFoundFirst(p: Pack, ps: seq<Pack>)
    ensures Lookup([p] + ps, p.id) == Some(p)
  {
    assert FirstIndex([p] + ps, p.id) == 0;
  }
}
