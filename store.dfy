/**
 * The write routes of the blog router (CREATE, PUT and DELETE) as effects on
 * an in-memory store: a map from listing id to listing and a map from
 * comment id to comment.
 */
module Store {
  import opened Models

  /** Every comment a listing refers to is present in the comment collection. */
  ghost predicate RefsExist(blogs: map<BlogId, Blog>, comments: map<CommentId, Comment>)
  {
    forall id, c :: id in blogs && c in blogs[id].comments ==> c in comments
  }

  /** No comment is referred to by two different listings. */
  ghost predicate Exclusive(blogs: map<BlogId, Blog>)
  {
    forall id1, id2, c :: id1 in blogs && id2 in blogs && c in blogs[id1].comments && c in blogs[id2].comments ==> id1 == id2
  }

  /** The comment collection after removing every comment whose id is listed (an `$in` removal). */
  function WithoutComments(comments: map<CommentId, Comment>, refs: seq<CommentId>): (r: map<CommentId, Comment>)
    ensures forall c :: c in r <==> c in comments && c !in refs
    ensures forall c :: c in r ==> r[c] == comments[c]
  {
    map c | c in comments && c !in refs :: comments[c]
  }

  /**
   * The `$set` of the PUT route: name, image, description and cost come
   * from the form, and location, lat and lng all from one geocoding match;
   * nothing else changes.
   */
  function Edited(b: Blog, form: Form, place: Place): (r: Blog)
    ensures r.author == b.author && r.comments == b.comments
    ensures r.name == form.name && r.image == form.image
    ensures r.description == form.description && r.cost == form.cost
    ensures r.location == place.formattedAddress && r.lat == place.lat && r.lng == place.lng
  {
    b.(name := form.name, image := form.image, description := form.description, cost := form.cost,
       location := place.formattedAddress, lat := place.lat, lng := place.lng)
  }

  /** The record the CREATE route stores: the form, one geocoding match, the creator, no comments. */
  function NewBlog(form: Form, user: User, place: Place): (r: Blog)
    ensures r.author == Author(user.id, user.username) && r.comments == []
    ensures Edited(r, form, place) == r
  {
    Blog(form.name, form.image, form.description, form.cost, Author(user.id, user.username),
         place.formattedAddress, place.lat, place.lng, [])
  }

  /** How the CREATE route reads the geocoding reply. */
  datatype GeoStep =
    | RejectAddress       // error or no match: "Invalid address", nothing stored
    | ResultsMissing      // any other reply without matches: results[0] is undefined and reading its geometry throws
    | Located(place: Place)

  /**
   * The CREATE route's test of the geocoding reply: an error or the status
   * "ZERO_RESULTS" rejects the address; otherwise the first match is used,
   * which throws when a reply with another status carries no match.
   */
  function ReadGeocode(geo: Geocode): (r: GeoStep)
    ensures r.RejectAddress? <==> geo.GeoError? || geo.status == "ZERO_RESULTS"
    ensures r.ResultsMissing? <==> geo.GeoReply? && geo.status != "ZERO_RESULTS" && geo.results == []
    ensures r.Located? ==> geo.GeoReply? && |geo.results| > 0 && r.place == geo.results[0]
  {
    if geo.GeoError? || geo.status == "ZERO_RESULTS" then RejectAddress
    else if geo.results == [] then ResultsMissing
    else Located(geo.results[0])
  }

  datatype CreateOutcome = InvalidAddress | CreateCrashed | SaveFailed | Created(id: BlogId)
  datatype UpdateOutcome = UpdateFailed | UpdateCrashed | Updated
  datatype DeleteOutcome = CommentsNotRemoved | BlogNotRemoved | Deleted

  /** Removing a listing together with its comments keeps every reference resolvable. */
  lemma CascadeKeepsRefs(blogs: map<BlogId, Blog>, comments: map<CommentId, Comment>, id: BlogId)
    requires RefsExist(blogs, comments) && Exclusive(blogs) && id in blogs
    ensures RefsExist(blogs - {id}, WithoutComments(comments, blogs[id].comments))
    ensures Exclusive(blogs - {id})
  {
    var rest, left := blogs - {id}, WithoutComments(comments, blogs[id].comments);
    forall id2, c | id2 in rest && c in rest[id2].comments
      ensures c in left
    {
      assert c in blogs[id2].comments;
    }
  }

  /**
   * If the comments are removed but removing the listing then fails, the
   * listing that stays refers to comments that no longer exist (assuming it
   * had any).
   */
  lemma HalfCascadeBreaksRefs(blogs: map<BlogId, Blog>, comments: map<CommentId, Comment>, id: BlogId)
    requires id in blogs && blogs[id].comments != []
    ensures !RefsExist(blogs, WithoutComments(comments, blogs[id].comments))
  {
    var c := blogs[id].comments[0];
    assert c in blogs[id].comments;
    assert c !in WithoutComments(comments, blogs[id].comments);
  }

  /** Editing only touches what the form and the match supply: two edits agree iff the listings share author and comments. */
  lemma EditedAgreeIff(b1: Blog, b2: Blog, form: Form, place: Place)
    ensures Edited(b1, form, place) == Edited(b2, form, place) <==>
      b1.author == b2.author && b1.comments == b2.comments
  {
    if Edited(b1, form, place) == Edited(b2, form, place) {
      assert Edited(b1, form, place).author == Edited(b2, form, place).author;
    }
  }

  /** Replacing a listing by an edit of it keeps both reference invariants. */
  lemma EditKeepsRefs(blogs: map<BlogId, Blog>, comments: map<CommentId, Comment>, id: BlogId, form: Form, place: Place)
    requires id in blogs
    ensures RefsExist(blogs, comments) ==> RefsExist(blogs[id := Edited(blogs[id], form, place)], comments)
    ensures Exclusive(blogs) ==> Exclusive(blogs[id := Edited(blogs[id], form, place)])
  {
    var after := blogs[id := Edited(blogs[id], form, place)];
    assert forall k :: k in after ==> k in blogs && after[k].comments == blogs[k].comments;
  }

  /** Adding a listing without comments under a new id keeps both reference invariants. */
  lemma AddKeepsRefs(blogs: map<BlogId, Blog>, comments: map<CommentId, Comment>, id: BlogId, b: Blog)
    requires id !in blogs && b.comments == []
    ensures RefsExist(blogs, comments) ==> RefsExist(blogs[id := b], comments)
    ensures Exclusive(blogs) ==> Exclusive(blogs[id := b])
  {
    var after := blogs[id := b];
    assert forall k, c :: k in after && c in after[k].comments ==> k in blogs && c in blogs[k].comments;
  }

  /** The listing and comment collections. */
  class BlogStore {
    var blogs: map<BlogId, Blog>
    var comments: map<CommentId, Comment>

    /** Both reference invariants (comments are written by routes outside this model). */
    ghost predicate Consistent()
      reads this
    {
      RefsExist(blogs, comments) && Exclusive(blogs)
    }

    constructor (blogs0: map<BlogId, Blog>, comments0: map<CommentId, Comment>)
      ensures blogs == blogs0 && comments == comments0
    {
      blogs := blogs0;
      comments := comments0;
    }

    /**
     * CREATE. The form and the author snapshot are stored under the id the
     * store assigns (a fresh one), only when the address geocodes and the
     * insert succeeds; otherwise nothing changes.
     */
    method Create(form: Form, user: User, geo: Geocode, newId: BlogId, saveOk: bool) returns (outcome: CreateOutcome)
      requires newId !in blogs
      modifies this
      ensures comments == old(comments)
      ensures outcome.InvalidAddress? <==> ReadGeocode(geo).RejectAddress?
      ensures outcome.CreateCrashed? <==> ReadGeocode(geo).ResultsMissing?
      ensures outcome.SaveFailed? <==> ReadGeocode(geo).Located? && !saveOk
      ensures outcome.Created? <==> ReadGeocode(geo).Located? && saveOk
      ensures outcome.Created? ==>
        outcome.id == newId && blogs == old(blogs)[newId := NewBlog(form, user, ReadGeocode(geo).place)]
      ensures !outcome.Created? ==> blogs == old(blogs)
      ensures old(Consistent()) ==> Consistent()
    {
      var step := ReadGeocode(geo);
      if step.RejectAddress? {
        return InvalidAddress;
      }
      if step.ResultsMissing? {
        return CreateCrashed;
      }
      var record := NewBlog(form, user, step.place);
      if !saveOk {
        return SaveFailed;
      }
      AddKeepsRefs(blogs, comments, newId, record);
      blogs := blogs[newId := record];
      outcome := Created(newId);
    }

    /**
     * PUT. With the first geocoding match, the seven edited fields of the
     * listing are set; a store error changes nothing, and a missing listing
     * changes nothing but makes the handler throw when it reads the result.
     */
    method Update(id: BlogId, form: Form, geo: Geocode, dbOk: bool) returns (outcome: UpdateOutcome)
      requires geo.GeoReply? && geo.results != []
      modifies this
      ensures comments == old(comments)
      ensures outcome == if !dbOk then UpdateFailed else if id !in old(blogs) then UpdateCrashed else Updated
      ensures outcome.Updated? ==> blogs == old(blogs)[id := Edited(old(blogs)[id], form, geo.results[0])]
      ensures !outcome.Updated? ==> blogs == old(blogs)
      ensures old(Consistent()) ==> Consistent()
    {
      var place := geo.results[0];
      if !dbOk {
        return UpdateFailed;
      }
      if id !in blogs {
        return UpdateCrashed;
      }
      EditKeepsRefs(blogs, comments, id, form, place);
      blogs := blogs[id := Edited(blogs[id], form, place)];
      outcome := Updated;
    }

    /** First DELETE step: remove the comments with the given ids, if the removal succeeds. */
    method RemoveComments(refs: seq<CommentId>, ok: bool)
      modifies this`comments
      ensures comments == if ok then WithoutComments(old(comments), refs) else old(comments)
    {
      if ok {
        comments := WithoutComments(comments, refs);
      }
    }

    /** Second DELETE step: remove the listing, if the removal succeeds. */
    method RemoveBlog(id: BlogId, ok: bool)
      modifies this`blogs
      ensures blogs == if ok then old(blogs) - {id} else old(blogs)
    {
      if ok {
        blogs := blogs - {id};
      }
    }

    /**
     * DELETE. The listing's comments are removed first; only if that
     * succeeds is the listing removed. Other listings, and comments the
     * listing does not refer to, are untouched.
     */
    method Delete(id: BlogId, commentsOk: bool, blogOk: bool) returns (outcome: DeleteOutcome)
      requires id in blogs
      modifies this
      ensures outcome == if !commentsOk then CommentsNotRemoved else if !blogOk then BlogNotRemoved else Deleted
      ensures comments == if commentsOk then WithoutComments(old(comments), old(blogs)[id].comments) else old(comments)
      ensures blogs == if outcome.Deleted? then old(blogs) - {id} else old(blogs)
      ensures forall c :: c in old(comments) && c !in old(blogs)[id].comments ==> c in comments && comments[c] == old(comments)[c]
      ensures forall k :: k in old(blogs) && k != id ==> k in blogs && blogs[k] == old(blogs)[k]
      ensures old(Consistent()) && !outcome.BlogNotRemoved? ==> Consistent()
      ensures outcome.BlogNotRemoved? && old(blogs)[id].comments != [] ==> !Consistent()
    {
      var refs := blogs[id].comments;
      if Consistent() {
        CascadeKeepsRefs(blogs, comments, id);
      }
      if refs != [] {
        HalfCascadeBreaksRefs(blogs, comments, id);
      }
      RemoveComments(refs, commentsOk);
      if !commentsOk {
        return CommentsNotRemoved;
      }
      RemoveBlog(id, blogOk);
      if !blogOk {
        return BlogNotRemoved;
      }
      outcome := Deleted;
    }
  }
}
