/**
 * The Discussion record: its attributes, the approval flag and the two
 * query scopes over it, read tracking, and the configuration lookup that
 * names the author model.
 */
module Discussions {
  import opened Wrappers
  import opened ReadList

  /** The attributes of one discussion row, as a value; `id` is null until the row is saved. */
  datatype Record = Record(
    id: Option<int>,
    discussion: string,
    isApproved: bool,
    userId: int,
    discussableId: int,
    discussableType: string,
    taggedUserId: seq<UserId>,
    readUserId: ReadField,
    additionalData: map<string, string>)

  // ---------------------------------------------------------------------------
  // Approval

  /** The attributes after `approve()` on a stored row: the flag set, everything else kept. */
  function Approved(r: Record): (r': Record)
    ensures r'.isApproved
    ensures r'.(isApproved := r.isApproved) == r
  {
    r.(isApproved := true)
  }

  /** Approving an approved record changes nothing. */
  lemma ApproveIdempotent(r: Record)
    ensures Approved(Approved(r)) == Approved(r)
    ensures Approved(r).isApproved
  {
  }

  /**
   * `where('is_approved', approved)` over a collection: the records whose
   * flag equals `approved`, in their original order.
   */
  function Where(rs: seq<Record>, approved: bool): (r: seq<Record>)
    ensures forall x :: x in r <==> x in rs && x.isApproved == approved
    ensures multiset(r) <= multiset(rs)
    decreases |rs|
  {
    if rs == [] then []
    else
      assert rs == [rs[0]] + rs[1..];
      (if rs[0].isApproved == approved then [rs[0]] else []) + Where(rs[1..], approved)
  }

  /** `scopeApproved`: the approved records. */
  function ScopeApproved(rs: seq<Record>): (r: seq<Record>)
    ensures forall x :: x in r <==> x in rs && x.isApproved
  {
    Where(rs, true)
  }

  /** `scopeDisapproved`: the records not approved. */
  function ScopeDisapproved(rs: seq<Record>): (r: seq<Record>)
    ensures forall x :: x in r <==> x in rs && !x.isApproved
  {
    Where(rs, false)
  }

  /** One step of the filter, as a multiset. */
  lemma WhereStep(rs: seq<Record>, approved: bool)
    requires rs != []
    ensures multiset(Where(rs, approved))
      == (if rs[0].isApproved == approved then multiset{rs[0]} else multiset{}) + multiset(Where(rs[1..], approved))
  {
  }

  /** The two filters split a collection: each record lands in exactly one of them. */
  lemma {:induction false} WherePartition(rs: seq<Record>)
    ensures multiset(Where(rs, true)) + multiset(Where(rs, false)) == multiset(rs)
    decreases |rs|
  {
    if rs != [] {
      WherePartition(rs[1..]);
      WhereStep(rs, true);
      WhereStep(rs, false);
      assert rs == [rs[0]] + rs[1..];
    }
  }

  /**
   * The approved and disapproved scopes partition any collection: no record
   * is in both, and together they hold every record as often as it occurs.
   */
  lemma ScopesPartition(rs: seq<Record>)
    ensures multiset(ScopeApproved(rs)) + multiset(ScopeDisapproved(rs)) == multiset(rs)
    ensures forall x :: !(x in ScopeApproved(rs) && x in ScopeDisapproved(rs))
  {
    WherePartition(rs);
  }

  // ---------------------------------------------------------------------------
  // Author model

  /** The exception thrown when no author model can be named. */
  datatype ConfigError = Exception(message: string)

  const UnresolvedModelMessage := "Could not determine the discusser model name."

  /**
   * PHP truthiness of a configuration value that is a string or null: null,
   * the empty string and "0" are falsy, every other string (even "00" or
   * " ") is truthy.
   */
  predicate Truthy(v: Option<string>)
    ensures v == None || v == Some("") || v == Some("0") ==> !Truthy(v)
    ensures v.Some? && |v.value| >= 2 ==> Truthy(v)
    ensures v.Some? && |v.value| == 1 && v.value[0] != '0' ==> Truthy(v)
  {
    v.Some? && v.value != "" && v.value != "0"
  }

  /**
   * `getAuthModelName`, with the values of `discussion.user_model` and
   * `auth.providers.users.model` passed in. The first is used when truthy,
   * the second whenever it is not null, even when empty.
   */
  function GetAuthModelName(userModel: Option<string>, providerModel: Option<string>)
    : (r: Result<string, ConfigError>)
    ensures Truthy(userModel) ==> r == Success(userModel.value)
    ensures !Truthy(userModel) && providerModel.Some? ==> r == Success(providerModel.value)
    ensures !Truthy(userModel) && providerModel.None? ==> r == Failure(Exception(UnresolvedModelMessage))
  {
    if Truthy(userModel) then Success(userModel.value)
    else if providerModel != None then Success(providerModel.value)
    else Failure(Exception(UnresolvedModelMessage))
  }

  /**
   * The two keys are tested differently: an empty or "0" override is
   * skipped, while an empty provider model is returned as it is.
   */
  lemma AuthModelAsymmetry()
    ensures GetAuthModelName(Some(""), Some("")) == Success("")
    ensures GetAuthModelName(Some("0"), None).Failure?
    ensures GetAuthModelName(Some("App\\User"), None) == Success("App\\User")
  {
  }

  // ---------------------------------------------------------------------------
  // The record object

  class Discussion {
    /** Eloquent's `exists` flag: whether the record has a row in the store. */
    var stored: bool
    var id: Option<int>
    var discussion: string
    var isApproved: bool
    var userId: int
    var discussableId: int
    var discussableType: string
    var taggedUserId: seq<UserId>
    var readUserId: ReadField
    var additionalData: map<string, string>

    /** All attributes, as a value. */
    function Attributes(): Record
      reads this
    {
      Record(id, discussion, isApproved, userId, discussableId, discussableType,
             taggedUserId, readUserId, additionalData)
    }

    /**
     * `new Discussion($attributes)`: mass assignment takes the fillable
     * attributes and ignores `id`, which is not fillable; the record is not
     * stored yet.
     */
    constructor (r: Record)
      ensures !stored
      ensures Attributes() == r.(id := None)
    {
      stored := false;
      id := None;
      discussion := r.discussion;
      isApproved := r.isApproved;
      userId := r.userId;
      discussableId := r.discussableId;
      discussableType := r.discussableType;
      taggedUserId := r.taggedUserId;
      readUserId := r.readUserId;
      additionalData := r.additionalData;
    }

    /** A record loaded from the row with primary key `key`. */
    constructor Retrieved(key: int, r: Record)
      ensures stored
      ensures Attributes() == r.(id := Some(key))
    {
      stored := true;
      id := Some(key);
      discussion := r.discussion;
      isApproved := r.isApproved;
      userId := r.userId;
      discussableId := r.discussableId;
      discussableType := r.discussableType;
      taggedUserId := r.taggedUserId;
      readUserId := r.readUserId;
      additionalData := r.additionalData;
    }

    /** `getReadUserIds`: the readers, whatever form the attribute is in. */
    function GetReadUserIds(): (ids: seq<UserId>)
      reads this
      ensures readUserId.Null? || readUserId.Other? ==> ids == []
      ensures readUserId.Decoded? || readUserId.Encoded? ==> ids == readUserId.ids
    {
      Decode(readUserId)
    }

    /** `isReadByUserId`: whether `u` is among the readers. */
    predicate IsReadByUserId(u: UserId)
      reads this
      ensures readUserId.Null? || readUserId.Other? ==> !IsReadByUserId(u)
      ensures IsReadByUserId(u) <==> u in GetReadUserIds()
    {
      IsRead(readUserId, u)
    }

    /**
     * `approve`: on a stored record, sets the flag and keeps every other
     * attribute. `update` on a record that is not stored does nothing.
     * Returns the record either way.
     */
    method Approve() returns (self: Discussion)
      modifies this
      ensures self == this
      ensures stored == old(stored)
      ensures stored ==> isApproved && Attributes() == Approved(old(Attributes()))
      ensures !stored ==> Attributes() == old(Attributes())
    {
      if stored {
        isApproved := true;
      }
      self := this;
    }

    /**
     * `readByUserId`: appends `u` to the readers, de-duplicates, stores the
     * encoded list and returns the record. On a stored record, `u` has read it
     * afterwards and the stored list has no duplicates; in every case no
     * earlier reader is lost and nobody else's status changes. `update` on a
     * record that is not stored does nothing.
     */
    method ReadByUserId(u: UserId) returns (self: Discussion)
      modifies this
      ensures self == this
      ensures stored == old(stored)
      ensures stored ==> Attributes() == old(Attributes()).(readUserId := Mark(old(readUserId), u))
      ensures stored ==> readUserId.Encoded? && NoDuplicates(GetReadUserIds()) && IsReadByUserId(u)
      ensures !stored ==> Attributes() == old(Attributes())
      ensures forall v :: old(IsReadByUserId(v)) ==> IsReadByUserId(v)
      ensures forall v :: v != u ==> (IsReadByUserId(v) <==> old(IsReadByUserId(v)))
    {
      var readUserIds := GetReadUserIds();
      readUserIds := readUserIds + [u];
      if stored {
        readUserId := Encode(Unique(readUserIds));
        MarkReads(old(readUserId), u);
        forall v ensures IsRead(old(readUserId), v) ==> IsRead(readUserId, v)
          ensures v != u ==> (IsRead(readUserId, v) <==> IsRead(old(readUserId), v))
        {
          MarkMonotone(old(readUserId), u, v);
        }
      }
      self := this;
    }
  }
}
