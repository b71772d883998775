/** Folding a group of duplicates into its oldest member. */
module ContactMerge {
  import opened Wrappers
  import opened Text
  import opened Sorting
  import opened ContactModel

  // ---------- Unions that keep first occurrences ----------

  function Flatten<T>(lists: seq<seq<T>>): seq<T> {
    if lists == [] then [] else Flatten(lists[..|lists| - 1]) + lists[|lists| - 1]
  }

  predicate KeyIn<T, K(==)>(out: seq<T>, key: T -> Option<K>, k: Option<K>) {
    exists i :: 0 <= i < |out| && key(out[i]) == k
  }

  /** The items in order, without those that have no key or whose key occurred before. */
  function UniqueBy<T, K(==)>(items: seq<T>, key: T -> Option<K>): seq<T> {
    if items == [] then []
    else
      var out, x := UniqueBy(items[..|items| - 1], key), items[|items| - 1];
      if key(x) == None || KeyIn(out, key, key(x)) then out else out + [x]
  }

  /** A union has exactly the keys of its items, each once, and no item of its own. */
  lemma {:induction false} UniqueByExact<T, K>(items: seq<T>, key: T -> Option<K>)
    ensures var out := UniqueBy(items, key);
            && (forall i :: 0 <= i < |out| ==> out[i] in items && key(out[i]) != None)
            && (forall k :: KeyIn(out, key, Some(k)) <==> KeyIn(items, key, Some(k)))
            && (forall i, j :: 0 <= i < j < |out| ==> key(out[i]) != key(out[j]))
    decreases |items|
  {
    if items != [] {
      var n := |items| - 1;
      var front, x := items[..n], items[n];
      UniqueByExact(front, key);
      var before, out := UniqueBy(front, key), UniqueBy(items, key);
      assert items == front + [x];
      forall k
        ensures KeyIn(out, key, Some(k)) <==> KeyIn(items, key, Some(k))
      {
        if KeyIn(items, key, Some(k)) {
          var i :| 0 <= i < |items| && key(items[i]) == Some(k);
          if i < n {
            assert front[i] == items[i];
            assert KeyIn(before, key, Some(k));
            var j :| 0 <= j < |before| && key(before[j]) == Some(k);
            assert out[j] == before[j];
          } else if out != before {
            assert out[|before|] == x;
          }
        }
        if KeyIn(out, key, Some(k)) {
          var i :| 0 <= i < |out| && key(out[i]) == Some(k);
          assert out[i] in items;
        }
      }
    }
  }

  method UnionBy<T, K(==)>(lists: seq<seq<T>>, key: T -> Option<K>) returns (out: seq<T>)
    ensures out == UniqueBy(Flatten(lists), key)
  {
    var seen: set<K> := {};
    out := [];
    assert lists[..0] == [];
    for i := 0 to |lists|
      invariant out == UniqueBy(Flatten(lists[..i]), key)
      invariant forall k :: k in seen <==> KeyIn(out, key, Some(k))
    {
      var list := lists[i];
      ghost var done := Flatten(lists[..i]);
      assert done + list[..0] == done;
      for j := 0 to |list|
        invariant out == UniqueBy(done + list[..j], key)
        invariant forall k :: k in seen <==> KeyIn(out, key, Some(k))
      {
        var v := list[j];
        ghost var items := done + list[..j + 1];
        assert items[..|items| - 1] == done + list[..j] && items[|items| - 1] == v;
        assert key(v).Some? ==> (key(v).value in seen <==> KeyIn(out, key, key(v)));
        if key(v).Some? && key(v).value !in seen {
          KeyInAppend(out, key, v);
          seen := seen + {key(v).value};
          out := out + [v];
        }
      }
      assert list[..|list|] == list;
      assert lists[..i + 1][..i] == lists[..i];
    }
    assert lists[..|lists|] == lists;
  }

  lemma {:induction false} KeyInAppend<T, K>(out: seq<T>, key: T -> Option<K>, v: T)
    ensures forall k :: KeyIn(out + [v], key, k) <==> KeyIn(out, key, k) || key(v) == k
  {
    forall k
      ensures KeyIn(out + [v], key, k) <==> KeyIn(out, key, k) || key(v) == k
    {
      if KeyIn(out, key, k) {
        var i :| 0 <= i < |out| && key(out[i]) == k;
        assert (out + [v])[i] == out[i];
      }
      if key(v) == k {
        assert (out + [v])[|out|] == v;
      }
    }
  }

  function EmailKey(v: ContactValue): Option<string> {
    var k := NormalizeEmail(v.value);
    if k == "" then None else Some(k)
  }

  function PhoneKey(v: ContactValue): Option<string> {
    var k := NormalizePhone(v.value);
    if k == "" then None else Some(k)
  }

  function NonBlank(s: string): Option<string> {
    if s == "" then None else Some(s)
  }

  function Itself<T>(x: T): Option<T> {
    Some(x)
  }

  // ---------- Scalar fields ----------

  datatype Scalar =
    | FormattedName | GivenName | FamilyName | MiddleName | Prefix | Suffix | Nickname | Org | Title
    | Notes | Birthday | PhotoRef | PGPKey | PhoneticGivenName | PhoneticFamilyName | Department | Pronouns

  function Get(c: Card, s: Scalar): string {
    match s
    case FormattedName => c.formattedName
    case GivenName => c.givenName
    case FamilyName => c.familyName
    case MiddleName => c.middleName
    case Prefix => c.prefix
    case Suffix => c.suffix
    case Nickname => c.nickname
    case Org => c.org
    case Title => c.title
    case Notes => c.notes
    case Birthday => c.birthday
    case PhotoRef => c.photoRef
    case PGPKey => c.pgpKey
    case PhoneticGivenName => c.phoneticGivenName
    case PhoneticFamilyName => c.phoneticFamilyName
    case Department => c.department
    case Pronouns => c.pronouns
  }

  function FirstNonEmpty(cs: seq<Contact>, s: Scalar): string {
    if cs == [] then ""
    else if Get(cs[0].card, s) != "" then Get(cs[0].card, s)
    else FirstNonEmpty(cs[1..], s)
  }

  /** The first contact that has the field decides; without one the field stays empty. */
  lemma {:induction false} FirstNonEmptyExact(cs: seq<Contact>, s: Scalar)
    ensures FirstNonEmpty(cs, s) == "" <==> forall i :: 0 <= i < |cs| ==> Get(cs[i].card, s) == ""
    ensures FirstNonEmpty(cs, s) != "" ==>
              exists i :: 0 <= i < |cs| && Get(cs[i].card, s) == FirstNonEmpty(cs, s)
                          && forall j :: 0 <= j < i ==> Get(cs[j].card, s) == ""
    decreases |cs|
  {
    hide Get;
    if cs != [] && Get(cs[0].card, s) == "" {
      FirstNonEmptyExact(cs[1..], s);
      assert forall i :: 0 < i < |cs| ==> cs[i] == cs[1..][i - 1];
      if FirstNonEmpty(cs, s) != "" {
        var i :| 0 <= i < |cs[1..]| && Get(cs[1..][i].card, s) == FirstNonEmpty(cs, s)
                 && forall j :: 0 <= j < i ==> Get(cs[1..][j].card, s) == "";
        assert cs[i + 1] == cs[1..][i];
        assert forall j :: 0 <= j < i + 1 ==> Get(cs[j].card, s) == "";
      } else {
        assert forall i :: 0 <= i < |cs[1..]| ==> cs[1..][i] == cs[i + 1];
      }
    }
  }

  // ---------- Orders ----------

  /** Earliest CreatedAt first, then lowest Rev, then UID. */
  predicate OlderThan(a: Contact, b: Contact) {
    if a.createdAt != b.createdAt then a.createdAt < b.createdAt
    else if a.rev != b.rev then a.rev < b.rev
    else Less(a.uid, b.uid)
  }

  /** Latest UpdatedAt first, then highest Rev. */
  predicate NewerThan(a: Contact, b: Contact) {
    if a.updatedAt != b.updatedAt then a.updatedAt > b.updatedAt else a.rev > b.rev
  }

  lemma {:induction false} LessIsOrder()
    ensures StrictWeakOrder(Less)
    ensures forall a, b :: a != b ==> Less(a, b) || Less(b, a)
  {
    forall a: string, b: string
      ensures !Less(a, a)
      ensures a != b ==> Less(a, b) || Less(b, a)
    {
      LessTotal(a, b);
    }
    forall a: string, b: string, c: string
      ensures Less(a, b) && Less(b, c) ==> Less(a, c)
      ensures Less(a, c) ==> Less(a, b) || Less(b, c)
    {
      LessTotal(a, b);
      LessTotal(b, c);
      if Less(a, b) && Less(b, c) {
        LessTransitive(a, b, c);
      }
      if Less(a, c) && Less(c, b) {
        LessTransitive(a, c, b);
      }
    }
  }

  lemma {:induction false} OlderIsOrder()
    ensures StrictWeakOrder(OlderThan)
  {
    LessIsOrder();
    hide Less;
  }

  lemma {:induction false} NewerIsOrder()
    ensures StrictWeakOrder(NewerThan)
  {
  }

  // ---------- The merged contact ----------

  function Uids(cs: seq<Contact>): seq<string> {
    seq(|cs|, i requires 0 <= i < |cs| => cs[i].uid)
  }

  function EmailLists(cs: seq<Contact>): seq<seq<ContactValue>> {
    seq(|cs|, i requires 0 <= i < |cs| => cs[i].card.emails)
  }

  function PhoneLists(cs: seq<Contact>): seq<seq<ContactValue>> {
    seq(|cs|, i requires 0 <= i < |cs| => cs[i].card.phones)
  }

  function AddressLists(cs: seq<Contact>): seq<seq<Address>> {
    seq(|cs|, i requires 0 <= i < |cs| => cs[i].card.addresses)
  }

  function GroupIDLists(cs: seq<Contact>): seq<seq<string>> {
    seq(|cs|, i requires 0 <= i < |cs| => cs[i].card.groupIDs)
  }

  function IMLists(cs: seq<Contact>): seq<seq<IM>> {
    seq(|cs|, i requires 0 <= i < |cs| => cs[i].card.ims)
  }

  function WebsiteLists(cs: seq<Contact>): seq<seq<Link>> {
    seq(|cs|, i requires 0 <= i < |cs| => cs[i].card.websites)
  }

  function RelationLists(cs: seq<Contact>): seq<seq<Relation>> {
    seq(|cs|, i requires 0 <= i < |cs| => cs[i].card.relations)
  }

  function EventLists(cs: seq<Contact>): seq<seq<Occasion>> {
    seq(|cs|, i requires 0 <= i < |cs| => cs[i].card.events)
  }

  function CustomFieldLists(cs: seq<Contact>): seq<seq<CustomField>> {
    seq(|cs|, i requires 0 <= i < |cs| => cs[i].card.customFields)
  }

  function MergedUIDLists(cs: seq<Contact>): seq<seq<string>> {
    seq(|cs|, i requires 0 <= i < |cs| => cs[i].mergedUIDs)
  }

  /** Scalars come from the newest contact that has them, lists are unions in member order. */
  function MergedCard(members: seq<Contact>): Card {
    var byNewest := Sort(NewerThan, members);
    Card(
      FirstNonEmpty(byNewest, FormattedName),
      FirstNonEmpty(byNewest, GivenName),
      FirstNonEmpty(byNewest, FamilyName),
      FirstNonEmpty(byNewest, MiddleName),
      FirstNonEmpty(byNewest, Prefix),
      FirstNonEmpty(byNewest, Suffix),
      FirstNonEmpty(byNewest, Nickname),
      FirstNonEmpty(byNewest, Org),
      FirstNonEmpty(byNewest, Title),
      FirstNonEmpty(byNewest, Notes),
      FirstNonEmpty(byNewest, Birthday),
      FirstNonEmpty(byNewest, PhotoRef),
      FirstNonEmpty(byNewest, PGPKey),
      FirstNonEmpty(byNewest, PhoneticGivenName),
      FirstNonEmpty(byNewest, PhoneticFamilyName),
      FirstNonEmpty(byNewest, Department),
      FirstNonEmpty(byNewest, Pronouns),
      UniqueBy(Flatten(EmailLists(members)), EmailKey),
      UniqueBy(Flatten(PhoneLists(members)), PhoneKey),
      UniqueBy(Flatten(AddressLists(members)), Itself),
      UniqueBy(Flatten(GroupIDLists(members)), NonBlank),
      UniqueBy(Flatten(IMLists(members)), Itself),
      UniqueBy(Flatten(WebsiteLists(members)), Itself),
      UniqueBy(Flatten(RelationLists(members)), Itself),
      UniqueBy(Flatten(EventLists(members)), Itself),
      UniqueBy(Flatten(CustomFieldLists(members)), Itself))
  }

  /** Everything a survivor may absorb: UIDs other than its own, without repetition. */
  function Foreign(uids: seq<string>, own: string): seq<string> {
    if uids == [] then []
    else
      var out, u := Foreign(uids[..|uids| - 1], own), uids[|uids| - 1];
      if u == "" || u == own || u in out then out else out + [u]
  }

  lemma {:induction false} ForeignExact(uids: seq<string>, own: string)
    ensures Distinct(Foreign(uids, own))
    ensures forall u :: u in Foreign(uids, own) <==> u in uids && u != "" && u != own
    decreases |uids|
  {
    if uids != [] {
      ForeignExact(uids[..|uids| - 1], own);
      assert uids == uids[..|uids| - 1] + [uids[|uids| - 1]];
    }
  }

  function MergedUIDs(own: string, members: seq<Contact>, absorbed: seq<string>): seq<string> {
    Sort(Less, Foreign(absorbed + Flatten(MergedUIDLists(members)), own))
  }

  /** The survivor, before the store stamps its Rev and UpdatedAt. */
  function Survivor(members: seq<Contact>): Contact
    requires members != []
  {
    SortPermutes(OlderThan, members);
    var oldest := Sort(OlderThan, members)[0];
    oldest.(card := MergedCard(members), mergedUIDs := MergedUIDs(oldest.uid, members, Absorbed(members)), mergedInto := "")
  }

  /** The UIDs of the other members, in string order. */
  function Absorbed(members: seq<Contact>): seq<string>
    requires members != []
  {
    SortPermutes(OlderThan, members);
    Sort(Less, Uids(Sort(OlderThan, members)[1..]))
  }

  predicate SameName(members: seq<Contact>) {
    && members != [] && NormalizeName(members[0]) != ""
    && forall i :: 0 <= i < |members| ==> NormalizeName(members[i]) == NormalizeName(members[0])
  }

  /** A pair merges; a larger group only when all members share one non-empty name. */
  predicate ShouldMerge(members: seq<Contact>) {
    if |members| < 2 then false
    else if |members| == 2 then true
    else SameName(members)
  }

  method MergedUIDsOf(own: string, members: seq<Contact>, absorbed: seq<string>) returns (out: seq<string>)
    ensures out == MergedUIDs(own, members, absorbed)
  {
    var found: set<string> := {};
    for i := 0 to |absorbed|
      invariant forall u :: u in found <==> u in absorbed[..i] && u != "" && u != own
    {
      if absorbed[i] != "" && absorbed[i] != own {
        found := found + {absorbed[i]};
      }
    }
    assert absorbed[..|absorbed|] == absorbed;
    ghost var lists := MergedUIDLists(members);
    assert lists[..0] == [];
    for i := 0 to |members|
      invariant forall u :: u in found <==> (u in absorbed || u in Flatten(lists[..i])) && u != "" && u != own
    {
      var uids := members[i].mergedUIDs;
      for j := 0 to |uids|
        invariant forall u :: u in found
                    <==> (u in absorbed || u in Flatten(lists[..i]) || u in uids[..j]) && u != "" && u != own
      {
        if uids[j] != "" && uids[j] != own {
          found := found + {uids[j]};
        }
      }
      assert uids[..|uids|] == uids;
      assert lists[..i + 1][..i] == lists[..i];
    }
    assert lists[..|members|] == lists;
    var left := found;
    out := [];
    while left != {}
      invariant left <= found && Distinct(out)
      invariant forall u :: u in out <==> u in found - left
      decreases |left|
    {
      var u :| u in left;
      assert u !in out;
      out := out + [u];
      left := left - {u};
    }
    SameListing(out, absorbed + Flatten(lists), own);
    out := Sort(Less, out);
  }

  /** Sorting forgets in which order a set was listed. */
  lemma {:induction false} SameListing(out: seq<string>, uids: seq<string>, own: string)
    requires Distinct(out) && forall u :: u in out <==> u in uids && u != "" && u != own
    ensures Sort(Less, out) == Sort(Less, Foreign(uids, own))
  {
    var f := Foreign(uids, own);
    ForeignExact(uids, own);
    DistinctMultiset(out);
    DistinctMultiset(f);
    forall u
      ensures multiset(out)[u] == multiset(f)[u]
    {
      assert u in multiset(out) <==> u in out;
      assert u in multiset(f) <==> u in f;
    }
    LessIsOrder();
    hide Less;
    SortForgetsArrival(Less, out, f);
  }

  method MergeGroup(members: seq<Contact>) returns (survivor: Contact, absorbed: seq<string>)
    requires members != []
    ensures survivor == Survivor(members) && absorbed == Absorbed(members)
  {
    hide OlderThan, NewerThan, Less, UniqueBy, Flatten, FirstNonEmpty, Sort, MergedUIDs, MergedCard;
    SortPermutes(OlderThan, members);
    var ordered := Sort(OlderThan, members);
    survivor := ordered[0];
    absorbed := Sort(Less, Uids(ordered[1..]));
    var card := MergeCards(members);
    var merged := MergedUIDsOf(survivor.uid, members, absorbed);
    survivor := survivor.(card := card, mergedUIDs := merged, mergedInto := "");
  }

  method MergeCards(members: seq<Contact>) returns (card: Card)
    ensures card == MergedCard(members)
  {
    hide NewerThan, UniqueBy, Flatten, FirstNonEmpty, Sort;
    var byNewest := Sort(NewerThan, members);
    var emails := UnionBy(EmailLists(members), EmailKey);
    var phones := UnionBy(PhoneLists(members), PhoneKey);
    var addresses := UnionBy(AddressLists(members), Itself);
    var groupIDs := UnionBy(GroupIDLists(members), NonBlank);
    var ims := UnionBy(IMLists(members), Itself);
    var websites := UnionBy(WebsiteLists(members), Itself);
    var relations := UnionBy(RelationLists(members), Itself);
    var events := UnionBy(EventLists(members), Itself);
    var customFields := UnionBy(CustomFieldLists(members), Itself);
    card := Card(
      FirstNonEmpty(byNewest, FormattedName),
      FirstNonEmpty(byNewest, GivenName),
      FirstNonEmpty(byNewest, FamilyName),
      FirstNonEmpty(byNewest, MiddleName),
      FirstNonEmpty(byNewest, Prefix),
      FirstNonEmpty(byNewest, Suffix),
      FirstNonEmpty(byNewest, Nickname),
      FirstNonEmpty(byNewest, Org),
      FirstNonEmpty(byNewest, Title),
      FirstNonEmpty(byNewest, Notes),
      FirstNonEmpty(byNewest, Birthday),
      FirstNonEmpty(byNewest, PhotoRef),
      FirstNonEmpty(byNewest, PGPKey),
      FirstNonEmpty(byNewest, PhoneticGivenName),
      FirstNonEmpty(byNewest, PhoneticFamilyName),
      FirstNonEmpty(byNewest, Department),
      FirstNonEmpty(byNewest, Pronouns),
      emails, phones, addresses, groupIDs, ims, websites, relations, events, customFields);
  }
}
