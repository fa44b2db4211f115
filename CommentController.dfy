/**
 * The comment endpoints: public reads (the comments on a plant, one comment), and create, edit
 * and delete for an authenticated caller. Only the author edits a comment; the author or the
 * owner of the commented plant's location deletes it.
 */
module Comments {
  import opened Wrappers
  import opened Sequences
  import opened Validation
  import opened Store

  /** The body of a create request; the `integer` rule admits a negative `plant_id`. */
  datatype CommentInput = CommentInput(comment: Option<string>, plantId: Option<int>)

  const NotAuthor := "You are not the owner of this comment"

  /** `comment` is required, and `plant_id` must name an existing plant. */
  predicate Acceptable(plants: map<nat, Plant>, input: CommentInput)
    ensures Acceptable(plants, input) ==> input.plantId.Some? && input.plantId.value >= 0
  {
    && input.comment.Some? && Filled(input.comment.value)
    && input.plantId.Some? && input.plantId.value in plants
  }

  /** The comment text an edit request supplies must be filled in. */
  predicate AcceptableText(text: Option<string>)
    ensures AcceptableText(text) ==> text.Some? && |text.value| > 0
  {
    text.Some? && Filled(text.value)
  }

  /** An edit is accepted exactly when PHP's `trim` leaves something of the sent text. */
  lemma AcceptableTextIffTrimmed(text: Option<string>)
    ensures AcceptableText(text) <==> text.Some? && Trim(text.value) != []
  {
    if text.Some? {
      FilledIffTrimNonEmpty(text.value);
    }
  }

  /**
   * Who may delete comment `c`: its author, or the owner of the location its plant stands at.
   * The author's case does not look at the plant at all.
   */
  predicate MayDelete(locations: map<nat, Location>, plants: map<nat, Plant>, caller: nat, c: Comment)
    ensures c.userId == caller ==> MayDelete(locations, plants, caller, c)
    ensures c.plantId !in plants ==> (MayDelete(locations, plants, caller, c) <==> c.userId == caller)
  {
    || c.userId == caller
    || (c.plantId in plants && OwnedBy(locations, plants[c.plantId].locationId, caller))
  }

  /** The comment reaches a plant or a location row that no longer exists. */
  predicate Dangling(locations: map<nat, Location>, plants: map<nat, Plant>, c: Comment)
    ensures !Dangling(locations, plants, c) ==>
      && c.plantId in plants && plants[c.plantId].locationId in locations
      && OwnedBy(locations, plants[c.plantId].locationId, locations[plants[c.plantId].locationId].userId)
    ensures c.plantId !in plants ==> Dangling(locations, plants, c)
  {
    c.plantId !in plants || plants[c.plantId].locationId !in locations
  }

  /**
   * `get(plantId)`: 404 for an unknown plant; otherwise exactly the comments on it, in table
   * order, which is the empty list when there are none.
   */
  function OnPlant(plants: map<nat, Plant>, rows: seq<Comment>, plantId: int): (r: Response<seq<Comment>>)
    requires StrictlyIncreasing(rows, CommentKey)
    ensures r.Ok? <==> plantId in plants
    ensures !r.Ok? ==> r == NotFound
    ensures r.Ok? ==> forall c :: c in r.data <==> c in rows && c.plantId == plantId
    ensures r.Ok? ==> StrictlyIncreasing(r.data, CommentKey)
    ensures r.Ok? && (forall i :: 0 <= i < |rows| ==> rows[i].plantId != plantId) ==> r.data == []
  {
    if plantId !in plants then NotFound
    else
      var onIt := (c: Comment) => c.plantId == plantId;
      FilterKeepsOrder(rows, onIt, CommentKey);
      var found := Filter(rows, onIt);
      assert (forall i :: 0 <= i < |rows| ==> rows[i].plantId != plantId) ==> found == [] by {
        if found != [] {
          assert found[0] in rows;
        }
      }
      Ok(found)
  }

  /** `get(plantId)` over the tables: 404 for an unknown plant, else exactly its comments. */
  function PlantComments(db: Database, plantId: int): (r: Response<seq<Comment>>)
    reads db
    requires db.Valid()
    ensures r.Ok? <==> plantId in db.plants
    ensures !r.Ok? ==> r == NotFound
    ensures r.Ok? ==> forall c :: c in r.data <==> c in db.comments.Values && c.plantId == plantId
  {
    var rows := db.CommentRows();
    OnPlant(db.plants, rows, plantId)
  }

  /**
   * `create`: 422, with nothing stored, unless the text is filled in and the plant exists;
   * otherwise a new comment by the caller on that plant, under a fresh id.
   */
  method Create(db: Database, caller: nat, input: CommentInput) returns (r: Response<Comment>)
    requires db.Valid()
    modifies db`comments, db`nextCommentId
    ensures db.Valid()
    ensures r.Created? <==> Acceptable(db.plants, input)
    ensures !r.Created? ==> r == Unprocessable
    ensures r.Created? ==>
      && r.data == Comment(old(db.nextCommentId), caller, input.plantId.value as nat, input.comment.value)
      && old(db.nextCommentId) !in old(db.comments)
      && db.comments == old(db.comments)[old(db.nextCommentId) := r.data]
    ensures !r.Created? ==> db.comments == old(db.comments) && db.nextCommentId == old(db.nextCommentId)
  {
    if !Acceptable(db.plants, input) {
      return Unprocessable;
    }
    var id := db.nextCommentId;
    var comment := Comment(id, caller, input.plantId.value as nat, input.comment.value);
    db.comments := db.comments[id := comment];
    db.nextCommentId := id + 1;
    r := Created(comment);
  }

  /**
   * `edit`: 422 before the lookup, then 404, then 403 unless the caller wrote the comment. A
   * success replaces only the text; author, plant and id stay.
   */
  method Edit(db: Database, caller: nat, id: nat, text: Option<string>) returns (r: Response<Comment>)
    requires db.Valid()
    modifies db`comments
    ensures db.Valid()
    ensures !AcceptableText(text) ==> r == Unprocessable
    ensures AcceptableText(text) && id !in old(db.comments) ==> r == NotFound
    ensures (AcceptableText(text) && id in old(db.comments)
      && old(db.comments[id]).userId != caller) ==> r == Forbidden(NotAuthor)
    ensures r.Ok? <==> AcceptableText(text) && id in old(db.comments) && old(db.comments[id]).userId == caller
    ensures r.Ok? ==>
      && r.data == old(db.comments[id]).(comment := text.value)
      && db.comments == old(db.comments)[id := r.data]
    ensures !r.Ok? ==> db.comments == old(db.comments)
  {
    if !AcceptableText(text) {
      return Unprocessable;
    }
    if id !in db.comments {
      return NotFound;
    }
    var comment := db.comments[id];
    if comment.userId != caller {
      return Forbidden(NotAuthor);
    }
    var edited := comment.(comment := text.value);
    db.comments := db.comments[id := edited];
    r := Ok(edited);
  }

  /**
   * `delete`: 404 for a missing comment; the author deletes it outright; anyone else needs to
   * own the plant's location, gets 403 otherwise, and a 500 when the plant or its location row
   * is gone. A success removes exactly that comment.
   */
  method Delete(db: Database, caller: nat, id: nat) returns (r: Response<()>)
    requires db.Valid()
    modifies db`comments
    ensures db.Valid()
    ensures id !in old(db.comments) ==> r == NotFound
    ensures r.Ok? <==> id in old(db.comments) && MayDelete(db.locations, db.plants, caller, old(db.comments[id]))
    ensures r == ServerError <==>
      id in old(db.comments) && old(db.comments[id]).userId != caller && Dangling(db.locations, db.plants, old(db.comments[id]))
    ensures (id in old(db.comments) && !Dangling(db.locations, db.plants, old(db.comments[id]))
      && !MayDelete(db.locations, db.plants, caller, old(db.comments[id]))) ==> r == Forbidden(NotAuthor)
    ensures r.Ok? ==> db.comments == old(db.comments) - {id}
    ensures !r.Ok? ==> db.comments == old(db.comments)
  {
    if id !in db.comments {
      return NotFound;
    }
    var comment := db.comments[id];
    if comment.userId != caller {
      if comment.plantId !in db.plants {
        return ServerError;
      }
      var locationId := db.plants[comment.plantId].locationId;
      if locationId !in db.locations {
        return ServerError;
      }
      if db.locations[locationId].userId != caller {
        return Forbidden(NotAuthor);
      }
    }
    db.comments := db.comments - {id};
    r := Ok(());
  }
}
