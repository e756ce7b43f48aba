/**
 * A member's photo gallery: the `Photo` records a user owns, the two
 * `FirstOrDefault` lookups the controller runs over them, and the
 * single-main invariant (at most one main photo, exactly one when the
 * gallery is not empty) together with the facts that show which gallery
 * changes keep it.
 */
module Gallery {
  import opened Wrappers

  /** One photo record. `publicId` is the handle of the asset at the image
      store; a seeded photo has none. */
  datatype Photo = Photo(id: int, url: string, publicId: Option<string>, isMain: bool)

  /** Index of the first photo whose id is `id`: `Photos.FirstOrDefault(x => x.Id == id)`. */
  function FindPhoto(ps: seq<Photo>, id: int): (r: Option<nat>)
    ensures r.Some? ==> r.value < |ps| && ps[r.value].id == id
    ensures r.Some? ==> forall j :: 0 <= j < r.value ==> ps[j].id != id
    ensures r.None? <==> forall j :: 0 <= j < |ps| ==> ps[j].id != id
  {
    if ps == [] then None
    else if ps[0].id == id then Some(0)
    else match FindPhoto(ps[1..], id)
      case None => None
      case Some(k) => Some(k + 1)
  }

  /** Index of the first main photo: `Photos.FirstOrDefault(x => x.IsMain)`. */
  function FindMain(ps: seq<Photo>): (r: Option<nat>)
    ensures r.Some? ==> r.value < |ps| && ps[r.value].isMain
    ensures r.Some? ==> forall j :: 0 <= j < r.value ==> !ps[j].isMain
    ensures r.None? <==> forall j :: 0 <= j < |ps| ==> !ps[j].isMain
  {
    if ps == [] then None
    else if ps[0].isMain then Some(0)
    else match FindMain(ps[1..])
      case None => None
      case Some(k) => Some(k + 1)
  }

  function Weight(p: Photo): nat
  {
    if p.isMain then 1 else 0
  }

  /** Number of photos flagged main. */
  function MainCount(ps: seq<Photo>): nat
  {
    if ps == [] then 0 else Weight(ps[0]) + MainCount(ps[1..])
  }

  /** At most one main photo, and exactly one when the gallery is not empty. */
  predicate GalleryInvariant(ps: seq<Photo>)
  {
    MainCount(ps) <= 1 && (ps != [] ==> MainCount(ps) == 1)
  }

  /** No two photos share an id (the store's primary key). */
  predicate UniqueIds(ps: seq<Photo>)
  {
    forall a, b :: 0 <= a < b < |ps| ==> ps[a].id != ps[b].id
  }

  /** The gallery without the photo at index `i`, the others kept in order. */
  function Removed(ps: seq<Photo>, i: nat): (r: seq<Photo>)
    requires i < |ps|
    ensures |r| == |ps| - 1
    ensures forall j :: 0 <= j < i ==> r[j] == ps[j]
    ensures forall j :: i <= j < |r| ==> r[j] == ps[j + 1]
    ensures multiset(r) + multiset{ps[i]} == multiset(ps)
  {
    assert ps == ps[..i] + [ps[i]] + ps[i + 1..];
    ps[..i] + ps[i + 1..]
  }

  /** The gallery after photo `i` is made main: the first photo that was main
      (if any) is no longer main, and every other photo is as it was. */
  function Promoted(ps: seq<Photo>, i: nat): (r: seq<Photo>)
    requires i < |ps|
    ensures |r| == |ps|
    ensures r[i] == ps[i].(isMain := true)
    ensures forall k :: FindMain(ps) == Some(k) && k != i ==> r[k] == ps[k].(isMain := false)
    ensures forall j :: 0 <= j < |ps| && j != i && FindMain(ps) != Some(j) ==> r[j] == ps[j]
  {
    seq(|ps|, j requires 0 <= j < |ps| =>
      if j == i then ps[j].(isMain := true)
      else if FindMain(ps) == Some(j) then ps[j].(isMain := false)
      else ps[j])
  }

  lemma {:induction false} MainCountZero(ps: seq<Photo>)
    ensures MainCount(ps) == 0 <==> forall j :: 0 <= j < |ps| ==> !ps[j].isMain
  {
    if ps != [] {
      MainCountZero(ps[1..]);
      assert forall j :: 1 <= j < |ps| ==> ps[j] == ps[1..][j - 1];
    }
  }

  /** A gallery with no main photo is exactly one whose lookup for the main photo finds nothing. */
  lemma NoMainFound(ps: seq<Photo>)
    ensures FindMain(ps).None? <==> MainCount(ps) == 0
  {
    MainCountZero(ps);
  }

  /** Appending adds the new photo's flag to the count. */
  lemma {:induction false} MainCountAppend(ps: seq<Photo>, p: Photo)
    ensures MainCount(ps + [p]) == MainCount(ps) + Weight(p)
  {
    if ps == [] {
      assert [p][1..] == [];
    } else {
      assert (ps + [p])[1..] == ps[1..] + [p];
      MainCountAppend(ps[1..], p);
    }
  }

  /** Replacing one photo changes the count by the difference of the two flags. */
  lemma {:induction false} MainCountUpdate(ps: seq<Photo>, i: nat, p: Photo)
    requires i < |ps|
    ensures MainCount(ps[i := p]) == MainCount(ps) - Weight(ps[i]) + Weight(p)
  {
    if i == 0 {
      assert ps[i := p][1..] == ps[1..];
    } else {
      assert ps[i := p][1..] == ps[1..][i - 1 := p];
      MainCountUpdate(ps[1..], i - 1, p);
    }
  }

  /** Removing one photo takes its flag off the count. */
  lemma {:induction false} MainCountRemove(ps: seq<Photo>, i: nat)
    requires i < |ps|
    ensures MainCount(Removed(ps, i)) == MainCount(ps) - Weight(ps[i])
  {
    if i == 0 {
      assert Removed(ps, 0) == ps[1..];
    } else {
      assert Removed(ps, i)[1..] == Removed(ps[1..], i - 1);
      MainCountRemove(ps[1..], i - 1);
    }
  }

  /** Under "at most one main", any two main photos are the same photo. */
  lemma {:induction false} SingleMain(ps: seq<Photo>, i: nat, j: nat)
    requires MainCount(ps) <= 1
    requires i < |ps| && j < |ps| && ps[i].isMain && ps[j].isMain
    ensures i == j
  {
    if i == 0 && j != 0 {
      MainCountZero(ps[1..]);
    } else if i != 0 && j == 0 {
      MainCountZero(ps[1..]);
    } else if i != 0 && j != 0 {
      SingleMain(ps[1..], i - 1, j - 1);
    }
  }

  /** The lookup by id reads only the ids: galleries that agree on every id
      agree on where a given id is found (the contract of `FindPhoto`
      determines its result). */
  lemma FindPhotoByIdsOnly(ps: seq<Photo>, qs: seq<Photo>, id: int)
    requires |ps| == |qs|
    requires forall j :: 0 <= j < |ps| ==> ps[j].id == qs[j].id
    ensures FindPhoto(ps, id) == FindPhoto(qs, id)
  {
  }

  /** Appending a photo that is main exactly when the gallery was empty keeps the invariant. */
  lemma AppendKeepsInvariant(ps: seq<Photo>, p: Photo)
    requires GalleryInvariant(ps)
    requires p.isMain == (ps == [])
    ensures GalleryInvariant(ps + [p])
    ensures MainCount(ps + [p]) == 1
  {
    MainCountAppend(ps, p);
  }

  /** Appending a photo whose id no photo of the gallery has keeps ids unique. */
  lemma AppendKeepsUniqueIds(ps: seq<Photo>, p: Photo)
    requires UniqueIds(ps)
    requires forall q <- ps :: q.id != p.id
    ensures UniqueIds(ps + [p])
  {
    var r := ps + [p];
    forall a, b | 0 <= a < b < |r| ensures r[a].id != r[b].id {
      if b == |ps| {
        assert r[a] in ps;
      }
    }
  }

  /** Promoting a non-main photo of a gallery with at most one main leaves
      exactly one main: the promoted photo. */
  lemma PromotedKeepsInvariant(ps: seq<Photo>, i: nat)
    requires i < |ps| && !ps[i].isMain
    requires MainCount(ps) <= 1
    ensures GalleryInvariant(Promoted(ps, i))
    ensures forall j :: 0 <= j < |ps| && Promoted(ps, i)[j].isMain ==> j == i
  {
    var r := Promoted(ps, i);
    PromotedMainCount(ps, i);
    forall j | 0 <= j < |ps| && r[j].isMain ensures j == i {
      SingleMain(r, i, j);
    }
  }

  /** Promoting a non-main photo demotes only the first main photo: the
      count of main photos stays as it was, except that a gallery with no
      main photo gains one. A gallery with two mains keeps two. */
  lemma PromotedMainCount(ps: seq<Photo>, i: nat)
    requires i < |ps| && !ps[i].isMain
    ensures MainCount(Promoted(ps, i)) == if MainCount(ps) == 0 then 1 else MainCount(ps)
  {
    var r := Promoted(ps, i);
    var raised := ps[i].(isMain := true);
    NoMainFound(ps);
    match FindMain(ps)
    case None =>
      assert r == ps[i := raised];
      MainCountUpdate(ps, i, raised);
    case Some(k) =>
      var lowered := ps[k].(isMain := false);
      var mid := ps[k := lowered];
      assert r == mid[i := raised];
      MainCountUpdate(ps, k, lowered);
      MainCountUpdate(mid, i, raised);
  }

  /** Set-main demotes only the FIRST main photo: on a gallery that already
      holds two mains, promoting a third photo leaves two mains. */
  lemma PromotedWithTwoMains()
    ensures
      var ps := [Photo(1, "a", None, true), Photo(2, "b", None, true), Photo(3, "c", None, false)];
      MainCount(ps) == 2 && MainCount(Promoted(ps, 2)) == 2
  {
    var ps := [Photo(1, "a", None, true), Photo(2, "b", None, true), Photo(3, "c", None, false)];
    var r := Promoted(ps, 2);
    assert FindMain(ps) == Some(0);
    assert r == [Photo(1, "a", None, false), Photo(2, "b", None, true), Photo(3, "c", None, true)];
    assert r[1..][1..] == [Photo(3, "c", None, true)];
    assert MainCount(r[1..][1..]) == 1;
    assert MainCount(r[1..]) == 2;
  }

  /** After a promotion the same id still finds the promoted photo, which is
      now main: a second request for it takes the "already main" branch. */
  lemma PromotedStaysFound(ps: seq<Photo>, id: int)
    requires FindPhoto(ps, id).Some?
    ensures FindPhoto(Promoted(ps, FindPhoto(ps, id).value), id) == FindPhoto(ps, id)
    ensures Promoted(ps, FindPhoto(ps, id).value)[FindPhoto(ps, id).value].isMain
  {
    var i := FindPhoto(ps, id).value;
    FindPhotoByIdsOnly(Promoted(ps, i), ps, id);
  }

  /** Removing a non-main photo keeps the invariant. */
  lemma RemovedKeepsInvariant(ps: seq<Photo>, i: nat)
    requires GalleryInvariant(ps)
    requires i < |ps| && !ps[i].isMain
    ensures GalleryInvariant(Removed(ps, i))
    ensures MainCount(Removed(ps, i)) == MainCount(ps)
  {
    MainCountRemove(ps, i);
  }

  /** With unique ids, the removed photo's id is no longer found. */
  lemma RemovedIsGone(ps: seq<Photo>, i: nat)
    requires UniqueIds(ps)
    requires i < |ps|
    ensures FindPhoto(Removed(ps, i), ps[i].id).None?
    ensures UniqueIds(Removed(ps, i))
  {
    var r := Removed(ps, i);
    forall j | 0 <= j < |r| ensures r[j].id != ps[i].id {
      if j < i {
        assert r[j] == ps[j];
      } else {
        assert r[j] == ps[j + 1];
      }
    }
  }

  /** A user and the photos it owns. Its fields are updated in place by the
      photo handlers; the gallery is the `Photos` list of the source. */
  class User {
    const userName: string
    var photos: seq<Photo>

    constructor (userName: string, photos: seq<Photo>)
      ensures this.userName == userName && this.photos == photos
    {
      this.userName := userName;
      this.photos := photos;
    }

    /** `Photos.Add(photo)`: the photo goes at the end. */
    method Add(p: Photo)
      modifies this
      ensures photos == old(photos) + [p]
    {
      photos := photos + [p];
    }

    /** `Photos.Remove(photo)` for the photo found at index `i`. */
    method RemoveAt(i: nat)
      requires i < |photos|
      modifies this
      ensures photos == Removed(old(photos), i)
    {
      photos := photos[..i] + photos[i + 1..];
    }

    /** Assignment to the `IsMain` flag of the photo at index `i`. */
    method SetIsMain(i: nat, isMain: bool)
      requires i < |photos|
      modifies this
      ensures photos == old(photos)[i := old(photos)[i].(isMain := isMain)]
    {
      photos := photos[i := photos[i].(isMain := isMain)];
    }
  }
}
