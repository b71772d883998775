/** Address book entries and the normal forms duplicates are found by. */
module ContactModel {
  import opened Text

  /** A timestamp; 0 stands for the empty string, which sorts before every other. */
  type Time = nat

  datatype ContactValue = ContactValue(label_: string, value: string)

  datatype Address = Address(
    label_: string, street: string, city: string, region: string, postalCode: string, country: string)

  datatype IM = IM(service: string, label_: string, value: string)

  datatype Link = Link(label_: string, value: string)

  datatype Relation = Relation(label_: string, name: string)

  datatype Occasion = Occasion(label_: string, date: string)

  datatype CustomField = CustomField(label_: string, value: string)

  /** The personal data of a contact: everything a tombstone clears. */
  datatype Card = Card(
    formattedName: string,
    givenName: string,
    familyName: string,
    middleName: string,
    prefix: string,
    suffix: string,
    nickname: string,
    org: string,
    title: string,
    notes: string,
    birthday: string,
    photoRef: string,
    pgpKey: string,
    phoneticGivenName: string,
    phoneticFamilyName: string,
    department: string,
    pronouns: string,
    emails: seq<ContactValue>,
    phones: seq<ContactValue>,
    addresses: seq<Address>,
    groupIDs: seq<string>,
    ims: seq<IM>,
    websites: seq<Link>,
    relations: seq<Relation>,
    events: seq<Occasion>,
    customFields: seq<CustomField>)

  const BLANK_CARD: Card :=
    Card("", "", "", "", "", "", "", "", "", "", "", "", "", "", "", "", "", [], [], [], [], [], [], [], [], [])

  datatype Contact = Contact(
    uid: string,
    rev: nat,
    deleted: bool,
    createdAt: Time,
    updatedAt: Time,
    isSelf: bool,
    card: Card,
    mergedUIDs: seq<string>,
    mergedInto: string)

  /** Clears the personal data; MergedInto is kept on purpose. */
  function Tombstone(c: Contact): Contact {
    c.(deleted := true, isSelf := false, card := BLANK_CARD, mergedUIDs := [])
  }

  // ---------- ETags ----------

  function ETagForRev(rev: nat): string {
    "rev-" + Decimal(rev)
  }

  /** An ETag identifies its revision. */
  lemma {:induction false} ETagInjective(a: nat, b: nat)
    requires ETagForRev(a) == ETagForRev(b)
    ensures a == b
  {
    assert ETagForRev(a)[4..] == Decimal(a);
    assert ETagForRev(b)[4..] == Decimal(b);
    DecimalInjective(a, b);
  }

  // ---------- Normal forms ----------

  function NormalizeEmail(s: string): string {
    Lower(Trim(s))
  }

  function Digits(s: string): string {
    if s == "" then ""
    else Digits(s[..|s| - 1]) + (if '0' <= s[|s| - 1] <= '9' then [s[|s| - 1]] else "")
  }

  function NormalizePhone(s: string): string {
    var d := Digits(s);
    if |d| >= 10 then d[|d| - 10..] else d
  }

  /** Keeps the digits, and of ten or more only the last ten. */
  method PhoneDigits(s: string) returns (r: string)
    ensures r == NormalizePhone(s)
  {
    var d := "";
    for i := 0 to |s|
      invariant d == Digits(s[..i])
    {
      assert s[..i + 1][..i] == s[..i];
      if '0' <= s[i] <= '9' {
        d := d + [s[i]];
      }
    }
    assert s[..|s|] == s;
    r := if |d| >= 10 then d[|d| - 10..] else d;
  }

  lemma {:induction false} DigitsAppend(a: string, b: string)
    ensures Digits(a + b) == Digits(a) + Digits(b)
    decreases |b|
  {
    if b == "" {
      assert a + b == a;
    } else {
      var n := |b| - 1;
      DigitsAppend(a, b[..n]);
      assert (a + b)[..|a + b| - 1] == a + b[..n];
    }
  }

  /** A number of at least ten digits matches itself behind any prefix, such as a country code, and
      with any characters other than digits put in anywhere. */
  lemma {:induction false} PhonePrefixIgnored(prefix: string, a: string, filler: string, b: string)
    requires |Digits(a + b)| >= 10 && Digits(filler) == ""
    ensures NormalizePhone(prefix + (a + filler + b)) == NormalizePhone(a + b)
  {
    hide Digits;
    DigitsAppend(a, b);
    DigitsAppend(a, filler);
    DigitsAppend(a + filler, b);
    DigitsAppend(prefix, a + filler + b);
    assert Digits(a) + "" == Digits(a);
    SameTail(Digits(prefix), Digits(a + b));
  }

  lemma SameTail(a: string, b: string)
    requires |b| >= 10
    ensures (a + b)[|a + b| - 10..] == b[|b| - 10..]
  {
  }

  /** strings.Fields */
  function Words(s: string): seq<string>
    decreases |s|
  {
    var t := TrimLeft(s);
    TrimLeftShorter(s);
    if t == "" then []
    else
      var n := WordLength(t);
      [t[..n]] + Words(t[n..])
  }

  function WordLength(s: string): (n: nat)
    ensures n <= |s|
    ensures s != "" && !IsSpace(s[0]) ==> n > 0
  {
    if s == "" || IsSpace(s[0]) then 0 else 1 + WordLength(s[1..])
  }

  lemma TrimLeftShorter(s: string)
    ensures |TrimLeft(s)| <= |s|
    ensures TrimLeft(s) != "" ==> !IsSpace(TrimLeft(s)[0])
  {
  }

  function NormalizeName(c: Contact): string {
    Lower(Join(Words(c.card.formattedName), " "))
  }

  lemma BlankName(c: Contact)
    requires c.card.formattedName == ""
    ensures NormalizeName(c) == ""
  {
  }

  predicate OtherwiseEmpty(c: Contact) {
    c.card.emails == [] && c.card.phones == []
  }

  // ---------- Keys and links ----------

  function EmailKeys(values: seq<ContactValue>): set<string> {
    set v | v in values && NormalizeEmail(v.value) != "" :: "e:" + NormalizeEmail(v.value)
  }

  function PhoneKeys(values: seq<ContactValue>): set<string> {
    set v | v in values && NormalizePhone(v.value) != "" :: "p:" + NormalizePhone(v.value)
  }

  /** The normalized email and phone values a contact can be matched by. */
  function KeySet(c: Contact): set<string> {
    EmailKeys(c.card.emails) + PhoneKeys(c.card.phones)
  }

  /** Two contacts share an email or phone, or a name when one of them has nothing else. */
  predicate Linked(c: Contact, d: Contact) {
    || KeySet(c) * KeySet(d) != {}
    || (NormalizeName(c) != "" && NormalizeName(c) == NormalizeName(d) && (OtherwiseEmpty(c) || OtherwiseEmpty(d)))
  }

  lemma LinkedSymmetric(c: Contact, d: Contact)
    ensures Linked(c, d) == Linked(d, c)
  {
    assert KeySet(c) * KeySet(d) == KeySet(d) * KeySet(c);
  }

  method MatchKeys(c: Contact) returns (keys: seq<string>)
    ensures forall k :: k in keys <==> k in KeySet(c)
  {
    keys := [];
    var emails, phones := c.card.emails, c.card.phones;
    for i := 0 to |emails|
      invariant forall k :: k in keys <==> k in EmailKeys(emails[..i])
    {
      EmailKeysStep(emails, i);
      var v := NormalizeEmail(emails[i].value);
      if v != "" {
        keys := keys + ["e:" + v];
      }
    }
    assert emails[..|emails|] == emails;
    for i := 0 to |phones|
      invariant forall k :: k in keys <==> k in EmailKeys(emails) + PhoneKeys(phones[..i])
    {
      PhoneKeysStep(phones, i);
      var v := PhoneDigits(phones[i].value);
      if v != "" {
        keys := keys + ["p:" + v];
      }
    }
    assert phones[..|phones|] == phones;
  }

  lemma {:induction false} EmailKeysStep(values: seq<ContactValue>, i: nat)
    requires i < |values|
    ensures EmailKeys(values[..i + 1])
         == EmailKeys(values[..i])
            + (if NormalizeEmail(values[i].value) != "" then {"e:" + NormalizeEmail(values[i].value)} else {})
  {
    assert values[..i + 1] == values[..i] + [values[i]];
  }

  lemma {:induction false} PhoneKeysStep(values: seq<ContactValue>, i: nat)
    requires i < |values|
    ensures PhoneKeys(values[..i + 1])
         == PhoneKeys(values[..i])
            + (if NormalizePhone(values[i].value) != "" then {"p:" + NormalizePhone(values[i].value)} else {})
  {
    assert values[..i + 1] == values[..i] + [values[i]];
  }
}
