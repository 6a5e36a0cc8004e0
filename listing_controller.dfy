/**
 * The product-listing handlers: a farmer publishes, replaces and removes
 * their own listings, and an administrator approves a listing. A listing
 * that is not the caller's is reported as missing, and no administrator
 * can replace or remove another farmer's listing.
 */
module ListingController {
  import opened Common
  import opened Entities
  import opened Store

  const Deleted: string := "Product listing deleted successfully"
  const Approved: string := "Product listing approved successfully"

  const FarmerRoles: set<Role> := {Farmer}
  const AdminRoles: set<Role> := {Admin}

  /** `createListing` as written: the body's own id, when it names a stored
      listing, makes `save` overwrite that listing, whoever owns it; an
      absent id inserts a new listing. */
  method CreateListingAsWritten(db: Database, auth: Authentication, body: Listing) returns (r: Result<Listing>)
    requires db.Valid()
    modifies db`listings, db`nextListingId
    ensures db.Valid()
    ensures !HasAnyRole(auth, FarmerRoles) ==> r == Err(Forbidden)
    ensures HasAnyRole(auth, FarmerRoles) && CurrentUser(old(db.users), auth).None? ==> r == Err(EmptyBadRequest)
    ensures r.Ok? <==> HasAnyRole(auth, FarmerRoles) && CurrentUser(old(db.users), auth).Some?
    ensures r.Err? ==> db.listings == old(db.listings) && db.nextListingId == old(db.nextListingId)
    ensures r.Ok? ==>
      && r.value.id.Some? && db.listings == old(db.listings)[r.value.id.value := r.value]
      && r.value == body.(id := r.value.id, farmer := Some(CurrentUser(old(db.users), auth).value.id))
      && (body.id.Some? && body.id.value in old(db.listings) ==> r.value.id == body.id)
      && (body.id.None? || body.id.value !in old(db.listings) ==> r.value.id.value !in old(db.listings))
  {
    if !HasAnyRole(auth, FarmerRoles) {
      return Err(Forbidden);
    }
    var farmer := CurrentUser(db.users, auth);
    if farmer.None? {
      return Err(EmptyBadRequest);
    }
    var listing := body.(farmer := Some(farmer.value.id));
    if listing.id.Some? && listing.id.value in db.listings {
      // `save` merges the body over the stored listing with that id.
      assert SchemaHolds(db.users, db.questions, db.answers, db.listings[listing.id.value := listing],
                         db.nextQuestionId, db.nextAnswerId, db.nextListingId);
      db.listings := db.listings[listing.id.value := listing];
    } else {
      listing := listing.(id := Some(db.nextListingId));
      assert SchemaHolds(db.users, db.questions, db.answers, db.listings[db.nextListingId := listing],
                         db.nextQuestionId, db.nextAnswerId, db.nextListingId + 1);
      db.listings := db.listings[db.nextListingId := listing];
      db.nextListingId := db.nextListingId + 1;
    }
    return Ok(listing);
  }

  /** The postcondition of `CreateListingAsWritten` instantiated for a body
      whose id names another farmer's listing: the stored table it yields
      hands that listing to the caller. */
  lemma CreateCanTakeOverListing(listings: map<nat, Listing>, caller: nat, body: Listing)
    requires body.id.Some? && body.id.value in listings
    requires listings[body.id.value].farmer != Some(caller)
    ensures var taken := listings[body.id.value := body.(farmer := Some(caller))];
      && body.id.value in taken && taken[body.id.value].farmer == Some(caller)
      && taken[body.id.value].farmer != listings[body.id.value].farmer
  {
  }

  /** `createListing` with the body's id disregarded: the listing is
      always inserted under a fresh id and belongs to the caller. */
  method CreateListing(db: Database, auth: Authentication, body: Listing) returns (r: Result<Listing>)
    requires db.Valid()
    modifies db`listings, db`nextListingId
    ensures db.Valid()
    ensures !HasAnyRole(auth, FarmerRoles) ==> r == Err(Forbidden)
    ensures HasAnyRole(auth, FarmerRoles) && CurrentUser(old(db.users), auth).None? ==> r == Err(EmptyBadRequest)
    ensures r.Ok? <==> HasAnyRole(auth, FarmerRoles) && CurrentUser(old(db.users), auth).Some?
    ensures r.Err? ==> db.listings == old(db.listings) && db.nextListingId == old(db.nextListingId)
    ensures r.Ok? ==>
      && r.value.id.Some? && r.value.id.value !in old(db.listings)
      && db.listings == old(db.listings)[r.value.id.value := r.value]
      && r.value == body.(id := r.value.id, farmer := Some(CurrentUser(old(db.users), auth).value.id))
  {
    if !HasAnyRole(auth, FarmerRoles) {
      return Err(Forbidden);
    }
    var farmer := CurrentUser(db.users, auth);
    if farmer.None? {
      return Err(EmptyBadRequest);
    }
    var listing := body.(id := Some(db.nextListingId), farmer := Some(farmer.value.id));
    assert SchemaHolds(db.users, db.questions, db.answers, db.listings[db.nextListingId := listing],
                       db.nextQuestionId, db.nextAnswerId, db.nextListingId + 1);
    db.listings := db.listings[db.nextListingId := listing];
    db.nextListingId := db.nextListingId + 1;
    return Ok(listing);
  }

  /** `updateListing`: only the listing's own farmer may replace it; the
      stored listing becomes the body with its id and farmer forced to the
      path id and the caller. Anyone else is told the listing is missing. */
  method UpdateListing(db: Database, auth: Authentication, id: nat, body: Listing) returns (r: Result<Listing>)
    requires db.Valid()
    modifies db`listings
    ensures db.Valid()
    ensures !HasAnyRole(auth, FarmerRoles) ==> r == Err(Forbidden)
    ensures HasAnyRole(auth, FarmerRoles) && id !in old(db.listings) ==> r == Err(NotFound)
    ensures HasAnyRole(auth, FarmerRoles) && id in old(db.listings)
      && (CurrentUser(old(db.users), auth).None?
          || old(db.listings)[id].farmer != Some(CurrentUser(old(db.users), auth).value.id))
      ==> r == Err(NotFound)
    ensures r.Ok? <==>
      && HasAnyRole(auth, FarmerRoles) && id in old(db.listings) && CurrentUser(old(db.users), auth).Some?
      && old(db.listings)[id].farmer == Some(CurrentUser(old(db.users), auth).value.id)
    ensures r.Err? ==> db.listings == old(db.listings)
    ensures r.Ok? ==>
      && r.value == body.(id := Some(id), farmer := old(db.listings)[id].farmer)
      && db.listings == old(db.listings)[id := r.value]
  {
    if !HasAnyRole(auth, FarmerRoles) {
      return Err(Forbidden);
    }
    if id in db.listings {
      var farmer := CurrentUser(db.users, auth);
      if farmer.Some? && db.listings[id].farmer == Some(farmer.value.id) {
        var listing := body.(id := Some(id), farmer := Some(farmer.value.id));
        assert SchemaHolds(db.users, db.questions, db.answers, db.listings[id := listing],
                           db.nextQuestionId, db.nextAnswerId, db.nextListingId);
        db.listings := db.listings[id := listing];
        return Ok(listing);
      }
    }
    return Err(NotFound);
  }

  /** `deleteListing`: only the listing's own farmer may remove it; anyone
      else is told the listing is missing. */
  method DeleteListing(db: Database, auth: Authentication, id: nat) returns (r: Result<string>)
    requires db.Valid()
    modifies db`listings
    ensures db.Valid()
    ensures !HasAnyRole(auth, FarmerRoles) ==> r == Err(Forbidden)
    ensures HasAnyRole(auth, FarmerRoles) && id !in old(db.listings) ==> r == Err(NotFound)
    ensures r.Ok? <==>
      && HasAnyRole(auth, FarmerRoles) && id in old(db.listings) && CurrentUser(old(db.users), auth).Some?
      && old(db.listings)[id].farmer == Some(CurrentUser(old(db.users), auth).value.id)
    ensures r.Err? ==> db.listings == old(db.listings)
    ensures r.Err? && HasAnyRole(auth, FarmerRoles) ==> r == Err(NotFound)
    ensures r.Ok? ==> db.listings == old(db.listings) - {id} && r.value == Deleted
  {
    if !HasAnyRole(auth, FarmerRoles) {
      return Err(Forbidden);
    }
    if id in db.listings {
      var farmer := CurrentUser(db.users, auth);
      if farmer.Some? && db.listings[id].farmer == Some(farmer.value.id) {
        db.listings := db.listings - {id};
        return Ok(Deleted);
      }
    }
    return Err(NotFound);
  }

  /** `approveListing`: an administrator marks an existing listing
      approved; nothing else about it changes. */
  method ApproveListing(db: Database, auth: Authentication, id: nat) returns (r: Result<string>)
    requires db.Valid()
    modifies db`listings
    ensures db.Valid()
    ensures !HasAnyRole(auth, AdminRoles) ==> r == Err(Forbidden)
    ensures HasAnyRole(auth, AdminRoles) && id !in old(db.listings) ==> r == Err(NotFound)
    ensures r.Ok? <==> HasAnyRole(auth, AdminRoles) && id in old(db.listings)
    ensures r.Err? ==> db.listings == old(db.listings)
    ensures r.Ok? ==>
      && db.listings == old(db.listings)[id := old(db.listings)[id].(isApproved := Some(true))]
      && r.value == Approved
  {
    if !HasAnyRole(auth, AdminRoles) {
      return Err(Forbidden);
    }
    if id in db.listings {
      var listing := db.listings[id];
      listing := listing.(isApproved := Some(true));
      assert SchemaHolds(db.users, db.questions, db.answers, db.listings[id := listing],
                         db.nextQuestionId, db.nextAnswerId, db.nextListingId);
      db.listings := db.listings[id := listing];
      return Ok(Approved);
    }
    return Err(NotFound);
  }
}
