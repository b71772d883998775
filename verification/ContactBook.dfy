/** The address book as a map from UIDs to contacts: what each operation does to it. */
module ContactBook {
  import opened ContactModel
  import opened ContactStore
  import opened ContactRuns
  import opened SelfMark

  function Book(cs: seq<Contact>): map<string, Contact> {
    WithAll(map[], cs)
  }

  lemma {:induction false} BookExact(cs: seq<Contact>)
    requires UidsDistinct(cs)
    ensures forall u :: u in Book(cs) <==> HasUid(cs, u)
    ensures forall i :: 0 <= i < |cs| ==> cs[i].uid in Book(cs) && Book(cs)[cs[i].uid] == cs[i]
  {
    WithAllExact(map[], cs);
  }

  lemma {:induction false} ReplacedUids(cs: seq<Contact>, p: nat, c: Contact)
    requires p < |cs| && c.uid == cs[p].uid
    ensures forall u :: HasUid(cs[p := c], u) <==> HasUid(cs, u)
    ensures UidsDistinct(cs) ==> UidsDistinct(cs[p := c])
  {
    var r := cs[p := c];
    forall u
      ensures HasUid(r, u) <==> HasUid(cs, u)
    {
      if HasUid(r, u) {
        var i :| 0 <= i < |r| && r[i].uid == u;
        assert cs[i].uid == u;
      }
      if HasUid(cs, u) {
        var i :| 0 <= i < |cs| && cs[i].uid == u;
        assert r[i].uid == u;
      }
    }
  }

  lemma {:induction false} BookOfReplaced(cs: seq<Contact>, p: nat, c: Contact)
    requires UidsDistinct(cs) && p < |cs| && c.uid == cs[p].uid
    ensures Book(cs[p := c]) == Book(cs)[c.uid := c]
  {
    hide Book;
    var r := cs[p := c];
    ReplacedUids(cs, p, c);
    BookExact(cs);
    BookExact(r);
    forall u | u in Book(r)
      ensures Book(r)[u] == if u == c.uid then c else Book(cs)[u]
    {
      var i :| 0 <= i < |r| && r[i].uid == u;
      assert i != p ==> cs[i].uid != cs[p].uid;
      assert Book(r)[r[i].uid] == r[i] && Book(cs)[cs[i].uid] == cs[i];
    }
    assert r[p].uid == c.uid;
  }

  lemma {:induction false} BookOfAppended(cs: seq<Contact>, c: Contact)
    requires UidsDistinct(cs) && !HasUid(cs, c.uid)
    ensures Book(cs + [c]) == Book(cs)[c.uid := c]
  {
    assert (cs + [c])[..|cs|] == cs;
  }

  lemma {:induction false} FindIsBook(cs: seq<Contact>, u: string)
    requires UidsDistinct(cs)
    ensures Find(cs, u).Some? <==> u in Book(cs)
    ensures Find(cs, u).Some? ==> cs[Find(cs, u).value] == Book(cs)[u]
  {
    BookExact(cs);
    hide Book;
    if Find(cs, u).Some? {
      assert HasUid(cs, cs[Find(cs, u).value].uid);
    }
  }

  /** A write sets exactly one entry: the given contact under the next revision, live, with the creation
      time and self mark of the contact it replaces. */
  lemma {:induction false} UpsertBook(st: State, c: Contact, newUid: string, now: Time)
    requires Inv(st) && (c.uid == "" ==> newUid != "" && !HasUid(st.contacts, newUid))
    ensures var book, uid := Book(st.contacts), if c.uid == "" then newUid else c.uid;
            var written := c.(uid := uid, rev := st.seqNo + 1, deleted := false, updatedAt := now,
                              createdAt := if uid !in book then now else if c.createdAt == 0 then book[uid].createdAt else c.createdAt,
                              isSelf := if uid in book then book[uid].isSelf else c.isSelf);
            Book(Upserted(st, c, newUid, now).contacts) == book[uid := written]
  {
    assert UidsDistinct(st.contacts);
    var book, uid := Book(st.contacts), if c.uid == "" then newUid else c.uid;
    FindIsBook(st.contacts, uid);
    BookExact(st.contacts);
    var s := Upserted(st, c, newUid, now);
    hide Book, Inv, UidsDistinct;
    if uid in book {
      var i := Find(st.contacts, uid).value;
      BookOfReplaced(st.contacts, i, s.contacts[i]);
    } else {
      BookOfAppended(st.contacts, s.contacts[|st.contacts|]);
    }
  }

  /** A deletion keeps the entry as a tombstone under the next revision. */
  lemma {:induction false} DeleteBook(st: State, uid: string, now: Time)
    requires Inv(st)
    ensures var book := Book(st.contacts);
            Book(Deleted(st, uid, now).contacts)
            == if uid in book then book[uid := Tombstone(book[uid]).(rev := st.seqNo + 1, updatedAt := now)] else book
  {
    assert UidsDistinct(st.contacts);
    FindIsBook(st.contacts, uid);
    hide Book, Inv, UidsDistinct;
    var found := Find(st.contacts, uid);
    if found.Some? {
      BookOfReplaced(st.contacts, found.value, Deleted(st, uid, now).contacts[found.value]);
    }
  }

  /** Setting or clearing the self mark changes nothing but marks, revisions and update times. */
  lemma {:induction false} SelfSetBook(st: State, uid: string, self: bool, now: Time)
    requires Inv(st)
    ensures var s := SelfSet(st, uid, self, now).contacts;
            && SameUids(s, st.contacts)
            && forall i :: 0 <= i < |s| ==>
                 s[i] == st.contacts[i] || s[i] == st.contacts[i].(isSelf := !st.contacts[i].isSelf, rev := s[i].rev, updatedAt := now)
  {
    var found := Find(st.contacts, uid);
    if found.Some? {
      OthersOnlyMarks(st, found.value, |st.contacts|, now);
      OthersClearedExact(st, found.value, |st.contacts|, now);
      hide OthersCleared;
    }
  }

  lemma {:induction false} OthersOnlyMarks(st: State, idx: nat, n: nat, now: Time)
    requires n <= |st.contacts|
    ensures var s := OthersCleared(st, idx, n, now).contacts;
            forall i :: 0 <= i < |s| ==>
              s[i] == st.contacts[i] || s[i] == st.contacts[i].(isSelf := !st.contacts[i].isSelf, rev := s[i].rev, updatedAt := now)
    decreases n
  {
    if n > 0 {
      OthersOnlyMarks(st, idx, n - 1, now);
      OthersClearedExact(st, idx, n - 1, now);
    }
  }

  /** A purge removes exactly the expired tombstones, and the watermark is the highest revision it
      removed or the old one. */
  lemma {:induction false} PurgeBook(st: State, now: Time, retention: int)
    requires Inv(st)
    ensures var book, cutoff, s := Book(st.contacts), Cutoff(now, retention), Purged(st, now, retention);
            && Book(s.contacts) == (map u | u in book && !Expired(book[u], cutoff) :: book[u])
            && s.gcHighWaterRev >= st.gcHighWaterRev
            && (forall i :: 0 <= i < |st.contacts| && Expired(st.contacts[i], cutoff) ==> st.contacts[i].rev <= s.gcHighWaterRev)
            && (s.gcHighWaterRev == st.gcHighWaterRev
                || exists i :: 0 <= i < |st.contacts| && Expired(st.contacts[i], cutoff) && st.contacts[i].rev == s.gcHighWaterRev)
  {
    var cutoff := Cutoff(now, retention);
    PurgeInv(st, now, retention);
    assert UidsDistinct(st.contacts) && UidsDistinct(Kept(st.contacts, cutoff));
    KeptBook(st.contacts, cutoff);
    WatermarkExact(st.contacts, cutoff, st.gcHighWaterRev);
    hide Book, Inv, UidsDistinct, Kept, Watermark, Cutoff, Expired;
  }

  lemma {:induction false} KeptBook(cs: seq<Contact>, cutoff: int)
    requires UidsDistinct(cs) && UidsDistinct(Kept(cs, cutoff))
    ensures var book := Book(cs); Book(Kept(cs, cutoff)) == (map u | u in book && !Expired(book[u], cutoff) :: book[u])
  {
    hide Book, UidsDistinct, Kept, Expired;
    var kept := Kept(cs, cutoff);
    BookExact(cs);
    BookExact(kept);
    KeptMembers(cs, cutoff);
    forall u | u in Book(kept)
      ensures u in Book(cs) && Book(kept)[u] == Book(cs)[u] && !Expired(Book(cs)[u], cutoff)
    {
      var k :| 0 <= k < |kept| && kept[k].uid == u;
      assert kept[k] in kept;
      var i :| 0 <= i < |cs| && cs[i] == kept[k];
      assert Book(cs)[cs[i].uid] == cs[i] && Book(kept)[kept[k].uid] == kept[k];
    }
    forall u | u in Book(cs) && !Expired(Book(cs)[u], cutoff)
      ensures u in Book(kept)
    {
      var i :| 0 <= i < |cs| && cs[i].uid == u;
      assert Book(cs)[cs[i].uid] == cs[i];
      assert cs[i] in kept;
      var k :| 0 <= k < |kept| && kept[k] == cs[i];
      assert HasUid(kept, kept[k].uid);
    }
  }

  lemma {:induction false} KeptMembers(cs: seq<Contact>, cutoff: int)
    ensures forall c :: c in Kept(cs, cutoff) <==> c in cs && !Expired(c, cutoff)
    decreases |cs|
  {
    hide Expired;
    if cs != [] {
      KeptMembers(cs[..|cs| - 1], cutoff);
      assert cs == cs[..|cs| - 1] + [cs[|cs| - 1]];
    }
  }

  lemma {:induction false} WatermarkExact(cs: seq<Contact>, cutoff: int, old_: nat)
    ensures var w := Watermark(cs, cutoff, old_);
            && w >= old_
            && (forall i :: 0 <= i < |cs| && Expired(cs[i], cutoff) ==> cs[i].rev <= w)
            && (w == old_ || exists i :: 0 <= i < |cs| && Expired(cs[i], cutoff) && cs[i].rev == w)
    decreases |cs|
  {
    hide Expired;
    if cs != [] {
      var n := |cs| - 1;
      WatermarkExact(cs[..n], cutoff, old_);
      assert forall i :: 0 <= i < n ==> cs[..n][i] == cs[i];
      var w := Watermark(cs[..n], cutoff, old_);
      if i :| 0 <= i < n && Expired(cs[..n][i], cutoff) && cs[..n][i].rev == w {
        assert Expired(cs[i], cutoff) && cs[i].rev == w;
      }
    }
  }
}
