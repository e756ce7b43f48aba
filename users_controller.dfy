/**
 * The users controller's handlers with the HTTP, async and mapping layers
 * taken away. The collaborators become inputs: the user the repository
 * returns (or null), the requester's gender, the image store's upload and
 * delete results, and the boolean the unit of work's commit returns.
 */
module UsersController {
  import opened Wrappers
  import opened Gallery

  /** What a handler answers. */
  datatype Status = NotFound | BadRequest(message: string) | NoContent | Ok | Created(photo: Photo)

  /** The image store's answer to an upload. */
  datatype UploadResult = UploadError(message: string) | Uploaded(url: string, publicId: string)

  /** The image store's answer to a delete. */
  datatype DeleteResult = Deleted | DeleteError(message: string)

  /** The query descriptor of the member listing. */
  datatype UserParams = UserParams(
    currentUsername: string,
    gender: Option<string>,
    minAge: int,
    maxAge: int,
    orderBy: string,
    pageNumber: int,
    pageSize: int)

  const AlreadyMain := "Already main photo"
  const SetMainFailed := "Problem setting main photo"
  const CantDeleteMain := "Can't delete main photo"
  const DeleteFailed := "Problem with deletin photo"
  const AddFailed := "Problem adding photo"

  /** `string.IsNullOrEmpty`. */
  predicate IsNullOrEmpty(s: Option<string>)
  {
    s.None? || s.value == ""
  }

  /** The listing's parameters as `GetUsers` completes them before querying:
      the caller becomes the current username, and an empty gender filter
      becomes "female" for a male requester and "male" for anyone else,
      including a requester whose gender is unknown. */
  function PrepareUserParams(p: UserParams, caller: string, requesterGender: Option<string>): (r: UserParams)
    ensures r.currentUsername == caller
    ensures !IsNullOrEmpty(r.gender)
    ensures !IsNullOrEmpty(p.gender) ==> r.gender == p.gender
    ensures IsNullOrEmpty(p.gender) ==> (r.gender == Some("female") <==> requesterGender == Some("male"))
    ensures IsNullOrEmpty(p.gender) ==> r.gender == Some("female") || r.gender == Some("male")
    ensures r.(currentUsername := p.currentUsername, gender := p.gender) == p
  {
    var gender := if IsNullOrEmpty(p.gender) then Some(if requesterGender == Some("male") then "female" else "male")
                  else p.gender;
    p.(currentUsername := caller, gender := gender)
  }

  /** For a requester of either gender, the default filter is the other one. */
  lemma DefaultIsOpposite(p: UserParams, caller: string, requesterGender: string)
    requires IsNullOrEmpty(p.gender)
    requires requesterGender == "male" || requesterGender == "female"
    ensures PrepareUserParams(p, caller, Some(requesterGender)).gender.Some?
    ensures PrepareUserParams(p, caller, Some(requesterGender)).gender.value != requesterGender
  {
  }

  /** Completing the parameters a second time changes nothing: the filter set
      the first time is no longer empty. */
  lemma PrepareUserParamsIdempotent(p: UserParams, caller: string, g1: Option<string>, g2: Option<string>)
    ensures PrepareUserParams(PrepareUserParams(p, caller, g1), caller, g2) == PrepareUserParams(p, caller, g1)
  {
  }

  /** `AddPhoto`: upload, then append the new photo, main only on an empty gallery. */
  method AddPhoto(user: User?, upload: UploadResult, newId: int, committed: bool) returns (status: Status)
    modifies user
    ensures user == null ==> status == NotFound
    ensures user != null && upload.UploadError? ==>
      status == BadRequest(upload.message) && user.photos == old(user.photos)
    ensures user != null && upload.Uploaded? ==>
      var added := Photo(newId, upload.url, Some(upload.publicId), old(user.photos) == []);
      && user.photos == old(user.photos) + [added]
      && status == (if committed then Created(added) else BadRequest(AddFailed))
    ensures user != null && GalleryInvariant(old(user.photos)) ==> GalleryInvariant(user.photos)
    ensures (user != null && upload.Uploaded? && UniqueIds(old(user.photos))
             && (forall p <- old(user.photos) :: p.id != newId))
      ==> UniqueIds(user.photos)
  {
    if user == null {
      return NotFound;
    }
    if upload.UploadError? {
      return BadRequest(upload.message);
    }
    var photo := Photo(newId, upload.url, Some(upload.publicId), false);
    if |user.photos| == 0 {
      photo := photo.(isMain := true);
    }
    ghost var before := user.photos;
    user.Add(photo);
    if GalleryInvariant(before) {
      AppendKeepsInvariant(before, photo);
    }
    if UniqueIds(before) && forall p <- before :: p.id != newId {
      AppendKeepsUniqueIds(before, photo);
    }
    status := if committed then Created(photo) else BadRequest(AddFailed);
  }

  /** `UpdateSetMainPhotoUser`: make the photo with id `photoId` the main one. */
  method UpdateSetMainPhotoUser(user: User?, photoId: int, committed: bool) returns (status: Status)
    modifies user
    ensures user == null ==> status == NotFound
    ensures user != null ==>
      var before := old(user.photos);
      var found := FindPhoto(before, photoId);
      if found.None? then
        status == NotFound && user.photos == before
      else if before[found.value].isMain then
        status == BadRequest(AlreadyMain) && user.photos == before
      else
        && user.photos == Promoted(before, found.value)
        && status == (if committed then NoContent else BadRequest(SetMainFailed))
        && (MainCount(before) <= 1 ==> MainCount(user.photos) == 1)
    ensures user != null && GalleryInvariant(old(user.photos)) ==> GalleryInvariant(user.photos)
  {
    if user == null {
      return NotFound;
    }
    var found := FindPhoto(user.photos, photoId);
    if found.None? {
      return NotFound;
    }
    var i := found.value;
    if user.photos[i].isMain {
      return BadRequest(AlreadyMain);
    }
    ghost var before := user.photos;
    var currentMain := FindMain(user.photos);
    if currentMain.Some? {
      user.SetIsMain(currentMain.value, false);
    }
    user.SetIsMain(i, true);
    assert user.photos == Promoted(before, i);
    if MainCount(before) <= 1 {
      PromotedKeepsInvariant(before, i);
    }
    status := if committed then NoContent else BadRequest(SetMainFailed);
  }

  /** `DeletePhoto`: remove a non-main photo, first deleting its asset at the
      image store when it has one. `deleteCalls` lists the public ids handed
      to the store's delete. The source dereferences the user without a null
      check, so a user must be given. */
  method DeletePhoto(user: User, photoId: int, deletion: DeleteResult, committed: bool)
    returns (status: Status, deleteCalls: seq<string>)
    modifies user
    ensures
      var before := old(user.photos);
      var found := FindPhoto(before, photoId);
      if found.None? then
        status == NotFound && deleteCalls == [] && user.photos == before
      else if before[found.value].isMain then
        status == BadRequest(CantDeleteMain) && deleteCalls == [] && user.photos == before
      else
        var target := before[found.value];
        && deleteCalls == (if target.publicId.Some? then [target.publicId.value] else [])
        && if target.publicId.Some? && deletion.DeleteError? then
             status == BadRequest(deletion.message) && user.photos == before
           else
             && user.photos == Removed(before, found.value)
             && status == (if committed then Ok else BadRequest(DeleteFailed))
    ensures GalleryInvariant(old(user.photos)) ==> GalleryInvariant(user.photos)
  {
    deleteCalls := [];
    var found := FindPhoto(user.photos, photoId);
    if found.None? {
      return NotFound, deleteCalls;
    }
    var i := found.value;
    var photo := user.photos[i];
    if photo.isMain {
      return BadRequest(CantDeleteMain), deleteCalls;
    }
    if photo.publicId.Some? {
      deleteCalls := deleteCalls + [photo.publicId.value];
      if deletion.DeleteError? {
        return BadRequest(deletion.message), deleteCalls;
      }
    }
    ghost var before := user.photos;
    user.RemoveAt(i);
    if GalleryInvariant(before) {
      RemovedKeepsInvariant(before, i);
    }
    status := if committed then Ok else BadRequest(DeleteFailed);
  }
}
