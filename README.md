# Users controller: photo gallery and listing defaults

A Dafny model of the users controller of a dating application's API. A
user owns a gallery of photos. Each photo has an id, a URL, an image-store
handle (`PublicId`, absent for a seeded photo) and an `IsMain` flag. The
controller's handlers:

- add a photo after uploading it to the image store; the first photo of a gallery becomes its main photo;
- promote a photo to main, demoting the current main photo;
- delete a non-main photo, deleting its asset at the image store first when it has one.

The listing handler fills in a default gender filter before querying.

The model keeps the source's shape. `Gallery.User` is a class whose
`photos` sequence is the `Photos` list. The handlers are methods that
update it in place through `Add`, `RemoveAt` and `SetIsMain`, which stand
for `Photos.Add`, `Photos.Remove` and the `IsMain` assignments. The two
`FirstOrDefault` lookups and the gender default are functions.

The collaborators are inputs:

- the user the repository returns, as a `User?`;
- the requester's gender, as an `Option<string>`;
- the upload result, as `UploadResult`;
- the delete result, as `DeleteResult`;
- the commit's boolean, as `committed`.

The id of a new photo is assigned by the database when the commit saves the photo.
`AddPhoto` therefore takes it as the input `newId`; when that id is new to
the gallery, `AddPhoto` keeps the gallery's ids unique.

The gallery invariant is `Gallery.GalleryInvariant`: at most one main
photo, and exactly one when the gallery is not empty. Every handler keeps
it. On success, set-main needs only "at most one main" before the call;
its rejections leave the gallery as it was, so a gallery that breaks the
invariant still breaks it. Set-main demotes only the first main photo it
finds: `Gallery.PromotedMainCount` shows that it keeps the count of main
photos when there is at least one (a gallery with two mains keeps two),
and gives a gallery with none exactly one;
`Gallery.PromotedWithTwoMains` is a concrete three-photo example.

The commit runs after the in-memory change. A failed commit therefore
changes only the returned status, never the new gallery: in every
handler's postcondition the new `photos` does not depend on `committed`.

`DeletePhoto` dereferences the user without a null check, so its model
takes a non-null `User`. The other two handlers answer `NotFound` for a
missing user.

A requester whose gender is unknown (null) gets the "male" filter,
because the code compares the gender only with "male". The other fields of
`UserParams` (age bounds, ordering, paging) pass through unchanged; their
defaults and clamping are not modelled.

## Model

| member | source | states |
|---|---|---|
| `Gallery.FindPhoto` | API/Controllers/UsersController.cs:116 | the result is the index of the first photo with the requested id, and it is absent exactly when no photo has that id |
| `Gallery.FindMain` | API/Controllers/UsersController.cs:127 | the result is the index of the first main photo, and it is absent exactly when no photo is main |
| `Gallery.NoMainFound` | API/Controllers/UsersController.cs:127-131 | the main-photo lookup finds nothing exactly when the gallery has no main photo |
| `Gallery.SingleMain` | API/Controllers/UsersController.cs:127 | in a gallery with at most one main photo, any two main photos are the same photo, so the lookup finds the only main photo |
| `Gallery.Removed` | API/Controllers/UsersController.cs:168 | removing the photo at an index drops exactly that photo: the others stay in order, the length shrinks by one and the multiset loses only that photo |
| `Gallery.Promoted` | API/Controllers/UsersController.cs:127-133 | after promotion the target photo is main, the first previously-main photo is not, and every other photo, every id and the length are unchanged |
| `Gallery.AppendKeepsInvariant` | API/Controllers/UsersController.cs:92-97 | appending a photo that is main exactly when the gallery was empty keeps the invariant and leaves exactly one main photo |
| `Gallery.PromotedKeepsInvariant` | API/Controllers/UsersController.cs:127-133 | promoting a non-main photo in a gallery with at most one main leaves exactly one main photo, and it is the promoted photo |
| `Gallery.PromotedMainCount` | API/Controllers/UsersController.cs:127-133 | promoting a non-main photo keeps the number of main photos, except that a gallery with none gains one, because only the first main is demoted; two mains stay two |
| `Gallery.PromotedWithTwoMains` | API/Controllers/UsersController.cs:127-131 | on one three-photo gallery with two main photos, promoting the third leaves two main photos |
| `Gallery.PromotedStaysFound` | API/Controllers/UsersController.cs:116-125 | after a promotion the same id still finds the promoted photo and it is main, so repeating the request is rejected as already main |
| `Gallery.RemovedKeepsInvariant` | API/Controllers/UsersController.cs:154-168 | removing a non-main photo keeps the invariant and the number of main photos |
| `Gallery.AppendKeepsUniqueIds` | API/Controllers/UsersController.cs:86-97 | appending a photo whose id is new to the gallery keeps ids unique |
| `Gallery.RemovedIsGone` | API/Controllers/UsersController.cs:168 | when ids are unique, the removed photo's id is no longer found and ids stay unique |
| `Gallery.User.Add` | API/Controllers/UsersController.cs:97 | the gallery becomes the old gallery with the new photo at the end |
| `Gallery.User.RemoveAt` | API/Controllers/UsersController.cs:168 | the gallery becomes the old gallery without the photo at the index |
| `Gallery.User.SetIsMain` | API/Controllers/UsersController.cs:130-133 | only the main flag of the photo at the index changes |
| `UsersController.PrepareUserParams` | API/Controllers/UsersController.cs:30-36 | the caller becomes the current username; a non-empty gender filter is kept; an empty one becomes "female" exactly when the requester's gender is "male" and "male" otherwise; the filter is never empty afterwards; no other field changes |
| `UsersController.DefaultIsOpposite` | API/Controllers/UsersController.cs:33-36 | for a male or female requester, the default filter differs from the requester's own gender |
| `UsersController.PrepareUserParamsIdempotent` | API/Controllers/UsersController.cs:31-36 | completing the parameters twice gives the same parameters as completing them once |
| `UsersController.AddPhoto` | API/Controllers/UsersController.cs:71-105 | a missing user gives NotFound; an upload error gives its message and leaves the gallery unchanged; otherwise the gallery gains exactly one photo at the end, main exactly when the gallery was empty, and the status is Created or "Problem adding photo" depending only on the commit; the invariant is kept, and ids stay unique when the new id is fresh |
| `UsersController.UpdateSetMainPhotoUser` | API/Controllers/UsersController.cs:108-141 | a missing user or photo gives NotFound and a main target gives "Already main photo", with the gallery unchanged in both cases; otherwise the gallery becomes the promoted gallery, the status is NoContent or "Problem setting main photo" depending only on the commit, and a gallery with at most one main ends with exactly one; the invariant is kept on every path |
| `UsersController.DeletePhoto` | API/Controllers/UsersController.cs:144-176 | a missing photo gives NotFound and a main photo gives "Can't delete main photo", with no store call and the gallery unchanged; otherwise the store's delete is called once exactly when the photo has a public id; its error is returned with the gallery unchanged; otherwise exactly that photo is removed and the status is Ok or "Problem with deletin photo" depending only on the commit; the invariant is kept |

## Left out

- DeletePhoto: requires a non-null user. The source dereferences the user returned by the repository without a null check (API/Controllers/UsersController.cs:146-148), so a missing user crashes with a null reference; that crash path is not modelled.
- `UpdateUser`: its effect is the object mapper's copy of the update's fields onto the user, and that mapping is not part of this model.
- `GetUser`, the repository queries, the member listing's filtering and ordering, pagination and the pagination header: that code is not part of this model. Only the parameter defaults of `GetUsers` are modelled.
- The `GeetUsername` claims extension and `ApiException`: the caller's username is a given string, and `ApiException` holds data with no logic.
- Identity of photo objects: a photo is a value in the gallery sequence, so aliasing between the looked-up photo and the list element is not modelled. `Photos.Remove(photo)` becomes removal at the index where the lookup found it.
- The image store and the unit of work: their results are inputs. The upload's file content, the asset left at the store when a commit fails after an upload, and transaction rollback are not modelled.
- HTTP results, DTO mapping, authorization and async execution: framework plumbing.
- Concurrent writers to one gallery: the source leaves them to the database.
