/** People, the rows that refer to them, and what the duplicate finder reads off them
    (app/models/person.py; scripts/merge_duplicate_persons.py:47-231). */
module Persons {
  import opened Options

  /** An identifier; its order stands for the order of the identifiers' texts. */
  type Id = nat
  type RefId = nat

  datatype Status = Active | Inactive | Archived

  /** `name` is as `normalize_name` leaves it: words with single spaces between them. */
  datatype Person = Person(name: string, phone: Option<string>, createdAt: int, isActive: bool, status: Status)

  datatype ChannelType = Email | Phone | Sms | Whatsapp | FacebookMessenger | InstagramDm | ChatWidget

  /** What a row that names a person as its subject is. A person has at most one channel
      of a type and address, one membership of an organization, one recipient row for a
      step of a campaign (or for no step), and one active referral as the referred. */
  datatype Kind =
    | Channel(channelType: ChannelType, address: string)
    | Membership(organization: nat)
    | CampaignRecipient(campaign: nat, step: Option<nat>)
    | ActiveReferral
    | Subscriber
    | Plain(table: string)
  {
    /** A merge drops the source's row if the target has the same. */
    predicate Keyed() {
      Channel? || Membership?
    }

    /** A merge re-points the source's row although the target may have the same. */
    predicate Blocking() {
      CampaignRecipient? || ActiveReferral?
    }
  }

  datatype Ref = Ref(owner: Id, kind: Kind)

  datatype Db = Db(people: map<Id, Person>, refs: map<RefId, Ref>)

  /** The unique constraints. */
  predicate KeysUnique(refs: map<RefId, Ref>) {
    forall q, r :: q in refs && r in refs && q != r && (refs[q].kind.Keyed() || refs[q].kind.Blocking()) ==>
      refs[q] != refs[r]
  }

  // ------------------------------------------------------------------ names

  predicate IsDigit(c: char) {
    '0' <= c <= '9'
  }

  predicate AllDigits(s: string) {
    forall c :: c in s ==> IsDigit(c)
  }

  function Value(digits: string): nat
    requires AllDigits(digits)
  {
    if digits == "" then 0
    else
      assert digits[|digits| - 1] in digits && forall c :: c in digits[..|digits| - 1] ==> c in digits;
      10 * Value(digits[..|digits| - 1]) + (digits[|digits| - 1] - '0') as nat
  }

  /** Where the last word of `s` starts. */
  function LastWord(s: string): (i: nat)
    ensures i <= |s| && ' ' !in s[i..] && (i > 0 ==> s[i - 1] == ' ')
    decreases |s|
  {
    if s == "" || s[|s| - 1] == ' ' then |s|
    else
      var i := LastWord(s[..|s| - 1]);
      assert s[i..] == s[..|s| - 1][i..] + [s[|s| - 1]];
      i
  }

  /** `split_suffix`: a number as last word is split off, unless it is the only word. */
  function SplitSuffix(name: string): (string, Option<nat>) {
    var i := LastWord(name);
    if 1 < i < |name| && AllDigits(name[i..]) then (name[..i - 1], Some(Value(name[i..]))) else (name, None)
  }

  lemma {:induction false} LastWordIs(s: string, word: string)
    requires ' ' !in word && (s == "" || s[|s| - 1] == ' ')
    ensures LastWord(s + word) == |s|
    decreases |word|
  {
    if word == "" {
      assert s + word == s;
    } else {
      var w := word[..|word| - 1];
      assert word[|word| - 1] in word && forall c :: c in w ==> c in word;
      assert (s + word)[..|s + word| - 1] == s + w;
      LastWordIs(s, w);
    }
  }

  lemma SplitIsSuffixed(name: string)
    requires SplitSuffix(name).1.Some?
    ensures var (base, suffix) := SplitSuffix(name);
            exists digits :: digits != "" && AllDigits(digits) && name == base + " " + digits
                              && Value(digits) == suffix.value
  {
    var i := LastWord(name);
    var digits := name[i..];
    hide LastWord, Value;
    assert name == name[..i - 1] + " " + digits;
    assert digits != "" && AllDigits(digits);
  }

  lemma SuffixedIsSplit(base: string, digits: string)
    requires base != "" && digits != "" && AllDigits(digits)
    ensures SplitSuffix(base + " " + digits) == (base, Some(Value(digits)))
  {
    var name := base + " " + digits;
    assert (base + " ")[|base + " "| - 1] == ' ';
    LastWordIs(base + " ", digits);
    hide LastWord, Value;
    assert name[|base| + 1..] == digits && name[..|base|] == base;
  }

  /** Exactly the names that the importer made from a base name and a number are split,
      into just these. */
  lemma SplitsExactlySuffixed(name: string, base: string, n: nat)
    requires base != ""
    ensures SplitSuffix(name) == (base, Some(n))
       <==> exists digits :: digits != "" && AllDigits(digits) && name == base + " " + digits && Value(digits) == n
  {
    hide SplitSuffix, Value, AllDigits;
    if SplitSuffix(name) == (base, Some(n)) {
      SplitIsSuffixed(name);
    }
    if digits :| digits != "" && AllDigits(digits) && name == base + " " + digits && Value(digits) == n {
      SuffixedIsSplit(base, digits);
    }
  }

  // ----------------------------------------------------------------- phones

  function Digits(s: string): string {
    if s == "" then "" else (if IsDigit(s[0]) then [s[0]] else []) + Digits(s[1..])
  }

  /** `normalize_phone`: the last ten digits, if there are ten. */
  function NormalizePhone(raw: Option<string>): Option<string> {
    if raw.None? then None
    else
      var digits := Digits(raw.value);
      if |digits| < 10 then None else Some(digits[|digits| - 10..])
  }

  function Single(phone: Option<string>): set<string> {
    if phone.Some? then {phone.value} else {}
  }

  /** The phone number that a row carries. */
  function PhoneOf(kind: Kind): Option<string> {
    if kind.Channel? && kind.channelType in {Phone, Sms, Whatsapp} then NormalizePhone(Some(kind.address)) else None
  }

  /** The rows that name `id`. */
  function RefsOf(db: Db, id: Id): set<RefId> {
    set r | r in db.refs && db.refs[r].owner == id
  }

  /** Lines 195-202. */
  function Phones(db: Db, id: Id): set<string>
    requires id in db.people
  {
    Single(NormalizePhone(db.people[id].phone))
    + set r | r in RefsOf(db, id) && PhoneOf(db.refs[r].kind).Some? :: PhoneOf(db.refs[r].kind).value
  }

  // -------------------------------------------------------------- candidates

  const GENERIC_NAMES: set<string> := {
    "facebook user", "instagram user", "whatsapp user", "telegram user", "unknown", "unknown user", "guest",
    "guest user", "anonymous", "anonymous user", "test", "test user", "no name", "n/a", "na", "customer",
    "visitor", "web visitor", "webchat visitor"
  }

  datatype Candidate = Candidate(id: Id, base: string, suffix: Option<nat>, phones: set<string>, createdAt: int)

  function CandidateOf(db: Db, id: Id): Candidate
    requires id in db.people
  {
    var (base, suffix) := SplitSuffix(db.people[id].name);
    Candidate(id, base, suffix, Phones(db, id), db.people[id].createdAt)
  }

  /** `load_candidates` keeps the active people whose name is no placeholder. */
  predicate Loadable(db: Db, id: Id) {
    id in db.people
    && db.people[id].isActive && db.people[id].status == Active
    && SplitSuffix(db.people[id].name).0 !in GENERIC_NAMES && db.people[id].name !in GENERIC_NAMES
  }

  datatype Tier = TierA | TierB | TierC | Review

  datatype Cluster = Cluster(tier: Tier, base: string, members: seq<Candidate>, survivor: Option<Candidate>)
}
