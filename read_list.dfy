/**
 * The `read_user_id` attribute of a discussion: the list of users who have
 * read it, as the attribute may hold it (absent, already decoded, still
 * JSON-encoded, or something else), PHP's `array_unique` on that list, and
 * the pure parts of marking a discussion as read.
 */
module ReadList {

  type UserId = int

  /**
   * What `read_user_id` can hold when it is read back. `Encoded` stands for
   * a JSON string whose decoding is the carried list; `Other` for any value
   * that is neither null, an array nor a string.
   */
  datatype ReadField =
    | Null
    | Decoded(ids: seq<UserId>)
    | Encoded(ids: seq<UserId>)
    | Other

  predicate NoDuplicates(s: seq<UserId>) {
    forall i, j :: 0 <= i < j < |s| ==> s[i] != s[j]
  }

  /**
   * `array_unique`: keeps the first occurrence of every id, in order.
   * Defined from the end of the list, so that appending one id unfolds once.
   */
  function Unique(s: seq<UserId>): (r: seq<UserId>)
    ensures NoDuplicates(r)
    ensures forall x :: x in r <==> x in s
    ensures |r| <= |s|
    ensures NoDuplicates(s) ==> r == s
    decreases |s|
  {
    if s == [] then []
    else
      var init, last := s[..|s| - 1], s[|s| - 1];
      assert s == init + [last];
      var prefix := Unique(init);
      if last in prefix then prefix else prefix + [last]
  }

  /** `json_encode` of a list, kept abstract: the string decodes to that list. */
  function Encode(ids: seq<UserId>): (rep: ReadField)
    ensures rep.Encoded?
    ensures Decode(rep) == ids
  {
    Encoded(ids)
  }

  /**
   * `getReadUserIds`: the stored attribute normalised to a list. Null and
   * any unexpected value read as the empty list.
   */
  function Decode(rep: ReadField): (ids: seq<UserId>)
    ensures rep.Null? || rep.Other? ==> ids == []
    ensures rep.Decoded? || rep.Encoded? ==> ids == rep.ids
  {
    match rep
    case Null => []
    case Decoded(ids) => ids
    case Encoded(ids) => ids
    case Other => []
  }

  /**
   * `isReadByUserId`: membership in the decoded list. Nobody has read a
   * discussion whose attribute is null or of an unexpected type.
   */
  predicate IsRead(rep: ReadField, u: UserId)
    ensures rep.Null? || rep.Other? ==> !IsRead(rep, u)
    ensures rep.Decoded? || rep.Encoded? ==> (IsRead(rep, u) <==> u in rep.ids)
  {
    u in Decode(rep)
  }

  /**
   * The attribute value that `readByUserId(u)` writes: the decoded list with
   * `u` appended, de-duplicated and encoded.
   */
  function Mark(rep: ReadField, u: UserId): (rep': ReadField)
    ensures rep'.Encoded?
    ensures NoDuplicates(Decode(rep'))
  {
    Encode(Unique(Decode(rep) + [u]))
  }

  /**
   * A run of `readByUserId` calls, one per id of `us`, in order. An empty
   * run leaves the attribute as it was; any other leaves it encoded and free
   * of duplicates.
   */
  function MarkAll(rep: ReadField, us: seq<UserId>): (rep': ReadField)
    ensures us == [] ==> rep' == rep
    ensures us != [] ==> rep'.Encoded? && NoDuplicates(Decode(rep'))
    decreases |us|
  {
    if us == [] then rep else MarkAll(Mark(rep, us[0]), us[1..])
  }

  // ---------------------------------------------------------------------------
  // array_unique

  /** De-duplicating a list with one more id appended adds that id iff it is new. */
  lemma UniqueAppend(s: seq<UserId>, u: UserId)
    ensures Unique(s + [u]) == if u in s then Unique(s) else Unique(s) + [u]
  {
    assert (s + [u])[..|s + [u]| - 1] == s;
  }

  /** De-duplicating twice is de-duplicating once, whatever follows. */
  lemma {:induction false} UniqueAbsorbs(a: seq<UserId>, b: seq<UserId>)
    ensures Unique(Unique(a) + b) == Unique(a + b)
    decreases |b|
  {
    if b == [] {
      assert Unique(a) + b == Unique(a);
      assert a + b == a;
    } else {
      var init, last := b[..|b| - 1], b[|b| - 1];
      assert b == init + [last];
      assert Unique(a) + b == (Unique(a) + init) + [last];
      assert a + b == (a + init) + [last];
      UniqueAbsorbs(a, init);
      UniqueAppend(Unique(a) + init, last);
      UniqueAppend(a + init, last);
    }
  }

  // ---------------------------------------------------------------------------
  // Decoding

  /** Decoding undoes encoding. */
  lemma DecodeEncode(ids: seq<UserId>)
    ensures Decode(Encode(ids)) == ids
  {
  }

  // ---------------------------------------------------------------------------
  // readByUserId

  /** After marking `u`, `u` has read the discussion. */
  lemma MarkReads(rep: ReadField, u: UserId)
    ensures IsRead(Mark(rep, u), u)
  {
    assert u in Decode(rep) + [u];
  }

  /**
   * On a list without duplicates, marking `u` keeps the list if `u` is in it
   * and appends `u` otherwise, so the result has no duplicates either.
   */
  lemma MarkAppendsNew(rep: ReadField, u: UserId)
    requires NoDuplicates(Decode(rep))
    ensures Decode(Mark(rep, u)) == if IsRead(rep, u) then Decode(rep) else Decode(rep) + [u]
    ensures NoDuplicates(Decode(Mark(rep, u)))
  {
    UniqueAppend(Decode(rep), u);
  }

  /** A second mark of the same user writes the same value as the first. */
  lemma MarkIdempotent(rep: ReadField, u: UserId)
    ensures Mark(Mark(rep, u), u) == Mark(rep, u)
  {
    MarkReads(rep, u);
    MarkAppendsNew(Mark(rep, u), u);
  }

  /** Marking `u` never removes a reader and changes the status of nobody but `u`. */
  lemma MarkMonotone(rep: ReadField, u: UserId, v: UserId)
    ensures IsRead(rep, v) ==> IsRead(Mark(rep, u), v)
    ensures v != u ==> (IsRead(Mark(rep, u), v) <==> IsRead(rep, v))
  {
    assert v in Decode(rep) + [u] <==> v in Decode(rep) || v == u;
  }

  /** What is stored is the encoded form, and decoding it gives the de-duplicated list. */
  lemma MarkRoundTrip(rep: ReadField, u: UserId)
    ensures Mark(rep, u) == Encode(Decode(Mark(rep, u)))
    ensures Decode(Mark(rep, u)) == Unique(Decode(rep) + [u])
  {
    DecodeEncode(Unique(Decode(rep) + [u]));
  }

  // ---------------------------------------------------------------------------
  // Runs of readByUserId

  /** Moving the head of `us` onto the end of `d`. */
  lemma ConsAppend(d: seq<UserId>, us: seq<UserId>)
    requires us != []
    ensures (d + [us[0]]) + us[1..] == d + us
  {
    assert us == [us[0]] + us[1..];
  }

  /**
   * Starting from a list without duplicates, a run of marks leaves exactly
   * the de-duplication of the old list followed by the marked ids.
   */
  lemma {:induction false} MarkAllList(rep: ReadField, us: seq<UserId>)
    requires NoDuplicates(Decode(rep))
    ensures Decode(MarkAll(rep, us)) == Unique(Decode(rep) + us)
    decreases |us|
  {
    if us == [] {
      assert Decode(rep) + us == Decode(rep);
    } else {
      var d, u, rest := Decode(rep), us[0], us[1..];
      var next := Mark(rep, u);
      assert MarkAll(rep, us) == MarkAll(next, rest);
      MarkAllList(next, rest);
      assert Decode(next) == Unique(d + [u]);
      UniqueAbsorbs(d + [u], rest);
      ConsAppend(d, us);
      calc {
        Decode(MarkAll(rep, us));
        Decode(MarkAll(next, rest));
        Unique(Unique(d + [u]) + rest);
        Unique((d + [u]) + rest);
        Unique(d + us);
      }
    }
  }

  /**
   * After a run of marks, the readers are exactly the earlier readers and
   * the marked ids, whatever the order or repetition of the marks.
   */
  lemma MarkAllReaders(rep: ReadField, us: seq<UserId>, v: UserId)
    ensures IsRead(MarkAll(rep, us), v) <==> IsRead(rep, v) || v in us
  {
    if us != [] {
      var u, rest := us[0], us[1..];
      var next := Mark(rep, u);
      assert MarkAll(rep, us) == MarkAll(next, rest);
      MarkAllList(next, rest);
      assert IsRead(MarkAll(rep, us), v) <==> v in Decode(next) || v in rest;
      assert v in Decode(next) <==> v in Decode(rep) + [u];
      assert v in us <==> v == u || v in rest;
    }
  }

  /** Two runs that mark the same set of users leave the same set of readers. */
  lemma MarkAllOrderIrrelevant(rep: ReadField, us: seq<UserId>, ws: seq<UserId>)
    requires forall x :: x in us <==> x in ws
    ensures forall v :: IsRead(MarkAll(rep, us), v) <==> IsRead(MarkAll(rep, ws), v)
  {
    forall v ensures IsRead(MarkAll(rep, us), v) <==> IsRead(MarkAll(rep, ws), v) {
      MarkAllReaders(rep, us, v);
      MarkAllReaders(rep, ws, v);
    }
  }

  /**
   * A discussion nobody has read, marked by user 7: 7 has read it, 8 has
   * not, and marking 7 again still stores just 7.
   */
  lemma FreshDiscussionExample()
    ensures IsRead(Mark(Null, 7), 7)
    ensures !IsRead(Mark(Null, 7), 8)
    ensures Decode(Mark(Mark(Null, 7), 7)) == [7]
  {
    MarkAllList(Null, [7]);
    MarkAllList(Null, [7, 7]);
    assert Unique([7]) == [7];
  }
}
