/** What the duplicate finder makes of names and phone numbers as they are written, and
    who is planned to become one person in these terms
    (scripts/merge_duplicate_persons.py:79-110, 179-290). */
module PersonNumbers {
  import opened Options
  import opened Persons
  import opened PersonMerge
  import opened PersonClusters

  // --------------------------------------------------- numbers as they are written

  predicate IsDigitChar(c: char) {
    c in "0123456789"
  }

  /** Reading `raw` from its end and passing over everything that is no digit, one finds `d`. */
  predicate EndsIn(raw: string, d: string) {
    d == ""
    || (raw != "" && var last, rest := raw[|raw| - 1], raw[..|raw| - 1];
        if IsDigitChar(last) then last == d[|d| - 1] && EndsIn(rest, d[..|d| - 1]) else EndsIn(rest, d))
  }

  /** Where the digits stand. */
  function DigitPlaces(raw: string): set<nat> {
    set i: nat | i < |raw| && IsDigitChar(raw[i])
  }

  lemma SameDigit(c: char)
    ensures IsDigitChar(c) <==> IsDigit(c)
  {
  }

  lemma DigitsOfFirst(s: string)
    requires s != ""
    ensures Digits(s) == (if IsDigit(s[0]) then [s[0]] else []) + Digits(s[1..])
  {
  }

  lemma {:induction false} DigitsAppend(a: string, b: string)
    ensures Digits(a + b) == Digits(a) + Digits(b)
    decreases |a|
  {
    hide IsDigit, Digits;
    if a == "" {
      assert a + b == b;
      DigitsOfNothing();
    } else {
      var rest := a[1..];
      assert (a + b)[1..] == rest + b && (a + b)[0] == a[0];
      DigitsOfFirst(a);
      DigitsOfFirst(a + b);
      DigitsAppend(rest, b);
    }
  }

  lemma DigitsOfNothing()
    ensures Digits("") == ""
  {
  }

  lemma DigitsOfLast(raw: string)
    requires raw != ""
    ensures var last, rest := raw[|raw| - 1], raw[..|raw| - 1];
            Digits(raw) == Digits(rest) + if IsDigitChar(last) then [last] else []
  {
    var last, rest := raw[|raw| - 1], raw[..|raw| - 1];
    SameDigit(last);
    hide IsDigit, IsDigitChar;
    assert raw == rest + [last] && [last][1..] == "";
    DigitsAppend(rest, [last]);
  }

  lemma EndsInLast(raw: string, d: string)
    requires raw != ""
    ensures var last, rest := raw[|raw| - 1], raw[..|raw| - 1];
            EndsIn(raw, d) == (d == ""
              || if IsDigitChar(last) then last == d[|d| - 1] && EndsIn(rest, d[..|d| - 1]) else EndsIn(rest, d))
  {
  }

  predicate IsEnd(d: string, s: string) {
    |d| <= |s| && s[|s| - |d|..] == d
  }

  lemma {:induction false} EndsInDigits(raw: string, d: string)
    ensures EndsIn(raw, d) <==> IsEnd(d, Digits(raw))
    decreases |raw|
  {
    if raw == "" {
    } else if d == "" {
    } else {
      var last, rest := raw[|raw| - 1], raw[..|raw| - 1];
      EndsInLast(raw, d);
      hide Digits, IsDigit, IsDigitChar, EndsIn, IsEnd;
      DigitsOfLast(raw);
      if IsDigitChar(last) {
        EndsInDigits(rest, d[..|d| - 1]);
        EndOfLonger(d, Digits(rest), last);
      } else {
        EndsInDigits(rest, d);
        assert Digits(raw) == Digits(rest);
      }
    }
  }

  lemma EndOfLonger(d: string, s: string, last: char)
    requires d != ""
    ensures IsEnd(d, s + [last]) <==> last == d[|d| - 1] && IsEnd(d[..|d| - 1], s)
  {
    var init, all := d[..|d| - 1], s + [last];
    assert d == init + [d[|d| - 1]];
    if |d| <= |all| {
      var k := |all| - |d|;
      assert all[k..] == s[k..] + [last] && |s[k..]| == |init|;
      assert all[k..] == d ==> all[k..][..|init|] == init && all[k..][|init|] == d[|init|];
    }
  }

  lemma {:induction false} PlacesOfDigits(raw: string)
    ensures |DigitPlaces(raw)| == |Digits(raw)|
    decreases |raw|
  {
    hide Digits, IsDigit, IsDigitChar;
    if raw == "" {
      assert Digits("") == "" by { DigitsOfNothing(); }
    } else {
      var n := |raw| - 1;
      PlacesOfDigits(raw[..n]);
      DigitsOfLast(raw);
      assert DigitPlaces(raw) == DigitPlaces(raw[..n]) + if IsDigitChar(raw[n]) then {n} else {};
    }
  }

  /** The normalized number is the ten digits that are found from the end, and there is
      none exactly if the text has fewer than ten digits. */
  lemma NormalizedExactly(raw: string, d: string)
    ensures NormalizePhone(Some(raw)) == Some(d) <==> |d| == 10 && EndsIn(raw, d)
    ensures NormalizePhone(Some(raw)) == None <==> |DigitPlaces(raw)| < 10
  {
    EndsInDigits(raw, d);
    PlacesOfDigits(raw);
  }

  /** Ten digits keep whatever is written before them, such as a country code or a zero. */
  lemma LastTenDigits(s: string, d: string)
    requires |d| == 10 && forall c :: c in d ==> IsDigitChar(c)
    ensures NormalizePhone(Some(s + d)) == Some(d)
  {
    EndsInItself(s, d);
    NormalizedExactly(s + d, d);
  }

  lemma {:induction false} EndsInItself(s: string, d: string)
    requires forall c :: c in d ==> IsDigitChar(c)
    ensures EndsIn(s + d, d)
    decreases |d|
  {
    if d != "" {
      var rest := d[..|d| - 1];
      assert d[|d| - 1] in d && forall c :: c in rest ==> c in d;
      assert (s + d)[..|s + d| - 1] == s + rest;
      EndsInItself(s, rest);
    }
  }

  /** Blanks, dashes, brackets and plus signs do not matter, wherever they stand. */
  lemma FormattingIgnored(a: string, x: string, b: string)
    requires forall c :: c in x ==> !IsDigitChar(c)
    ensures NormalizePhone(Some(a + x + b)) == NormalizePhone(Some(a + b))
  {
    NoDigits(x);
    DigitsAppend(a + x, b);
    DigitsAppend(a, x);
    DigitsAppend(a, b);
    assert Digits(a + x) == Digits(a);
  }

  lemma {:induction false} NoDigits(x: string)
    requires forall c :: c in x ==> !IsDigitChar(c)
    ensures Digits(x) == ""
    decreases |x|
  {
    if x != "" {
      assert x[0] in x && forall c :: c in x[1..] ==> c in x;
      NoDigits(x[1..]);
    }
  }

  /** The texts in which a person's phone numbers are written: the person's own, and the
      addresses of the phone, text message and WhatsApp channels. */
  predicate Carries(db: Db, x: Id, raw: string) {
    x in db.people
    && (db.people[x].phone == Some(raw)
        || exists r :: r in db.refs && db.refs[r] in {Ref(x, Channel(Phone, raw)), Ref(x, Channel(Sms, raw)),
                                                      Ref(x, Channel(Whatsapp, raw))})
  }

  ghost predicate HasNumber(db: Db, x: Id, d: string) {
    |d| == 10 && exists raw :: Carries(db, x, raw) && EndsIn(raw, d)
  }

  lemma PhonesMean(db: Db, x: Id, d: string)
    requires x in db.people
    ensures d in Phones(db, x) <==> HasNumber(db, x, d)
  {
    hide Digits, EndsIn;
    if HasNumber(db, x, d) {
      var raw :| Carries(db, x, raw) && EndsIn(raw, d);
      NormalizedExactly(raw, d);
      CarriedNumber(db, x, raw, d);
    }
    if d in Phones(db, x) {
      var raw := WrittenNumber(db, x, d);
      NormalizedExactly(raw, d);
    }
  }

  lemma CarriedNumber(db: Db, x: Id, raw: string, d: string)
    requires Carries(db, x, raw) && NormalizePhone(Some(raw)) == Some(d)
    ensures d in Phones(db, x)
  {
    hide NormalizePhone;
    if db.people[x].phone != Some(raw) {
      var r :| r in db.refs && db.refs[r] in {Ref(x, Channel(Phone, raw)), Ref(x, Channel(Sms, raw)),
                                              Ref(x, Channel(Whatsapp, raw))};
      assert r in RefsOf(db, x) && PhoneOf(db.refs[r].kind) == Some(d);
    }
  }

  lemma WrittenNumber(db: Db, x: Id, d: string) returns (raw: string)
    requires x in db.people && d in Phones(db, x)
    ensures Carries(db, x, raw) && NormalizePhone(Some(raw)) == Some(d)
  {
    if NormalizePhone(db.people[x].phone) == Some(d) {
      raw := db.people[x].phone.value;
    } else {
      hide NormalizePhone;
      var r :| r in RefsOf(db, x) && PhoneOf(db.refs[r].kind) == Some(d);
      raw := db.refs[r].kind.address;
      assert db.refs[r] in {Ref(x, Channel(Phone, raw)), Ref(x, Channel(Sms, raw)), Ref(x, Channel(Whatsapp, raw))};
    }
  }

  // ------------------------------------------------------ names as they are written

  /** A digit with so many digits after it: its value, ten times for each of them. */
  function Weight(c: char, place: nat): int {
    if place == 0 then c as int - '0' as int else 10 * Weight(c, place - 1)
  }

  lemma ValueOfLast(digits: string, c: char)
    requires AllDigits(digits) && IsDigit(c)
    ensures AllDigits(digits + [c]) && Value(digits + [c]) == 10 * Value(digits) + (c as int - '0' as int)
  {
    assert (digits + [c])[..|digits|] == digits;
    assert AllDigits(digits + [c]);
  }

  /** Every digit counts by its place. */
  lemma {:induction false} ValueByPlace(c: char, digits: string)
    requires IsDigit(c) && AllDigits(digits)
    ensures AllDigits([c] + digits)
    ensures Value([c] + digits) == Weight(c, |digits|) + Value(digits)
    decreases |digits|
  {
    if digits == "" {
      assert [c] + "" == "" + [c];
      ValueOfLast("", c);
    } else {
      var n := |digits| - 1;
      var init, last := digits[..n], digits[n];
      assert last in digits && AllDigits(init) && [c] + digits == ([c] + init) + [last] && digits == init + [last];
      hide Value, IsDigit, AllDigits;
      ValueByPlace(c, init);
      ValueOfLast(init, last);
      ValueOfLast([c] + init, last);
    }
  }

  /** `name` is `base` with a number after it. */
  ghost predicate Numbered(name: string, base: string, digits: string) {
    base != "" && digits != "" && AllDigits(digits) && name == base + " " + digits
  }

  /** `name` is `base` with the number `n`, or is `base` and has no number. */
  ghost predicate Bears(name: string, base: string, n: Option<nat>) {
    if n.Some? then exists digits :: Numbered(name, base, digits) && Value(digits) == n.value
    else name == base && forall b, digits :: !Numbered(name, b, digits)
  }

  lemma SplitMeans(name: string, base: string, n: Option<nat>)
    ensures SplitSuffix(name) == (base, n) <==> Bears(name, base, n)
  {
    var (b, m) := SplitSuffix(name);
    if m.Some? {
      SplitIsSuffixed(name);
      assert b != "";
      var digits :| digits != "" && AllDigits(digits) && name == b + " " + digits && Value(digits) == m.value;
      assert Numbered(name, b, digits);
    }
    if b', digits :| Numbered(name, b', digits) {
      SuffixedIsSplit(b', digits);
    }
    hide SplitSuffix, Value;
    if n.Some? && Bears(name, base, n) {
      var digits :| Numbered(name, base, digits) && Value(digits) == n.value;
      SuffixedIsSplit(base, digits);
    }
    if m.None? {
      assert b == name by { UnnumberedName(name); }
    }
  }

  lemma UnnumberedName(name: string)
    requires SplitSuffix(name).1.None?
    ensures SplitSuffix(name).0 == name
  {
  }

  /** An active person, known as `base` with the number `n` or none, and by no placeholder. */
  ghost predicate Considered(db: Db, x: Id, base: string, n: Option<nat>) {
    && x in db.people && db.people[x].isActive && db.people[x].status == Active
    && Bears(db.people[x].name, base, n)
    && base !in GENERIC_NAMES && db.people[x].name !in GENERIC_NAMES
  }

  ghost predicate Named(db: Db, x: Id, base: string) {
    exists n :: Considered(db, x, base, n)
  }

  lemma ConsideredMeans(db: Db, x: Id, base: string, n: Option<nat>)
    ensures Considered(db, x, base, n)
       <==> x in db.people && Loadable(db, x) && BaseOf(db, x) == base && SuffixOf(db, x) == n
  {
    if x in db.people {
      SplitMeans(db.people[x].name, base, n);
      hide SplitSuffix, Bears, GENERIC_NAMES;
    }
  }

  lemma NamedMeans(db: Db, x: Id, base: string)
    ensures Named(db, x, base) <==> x in Group(db, base)
  {
    hide Considered, Loadable;
    if n :| Considered(db, x, base, n) {
      ConsideredMeans(db, x, base, n);
    }
    if x in Group(db, base) {
      ConsideredMeans(db, x, base, SuffixOf(db, x));
    }
  }

  // --------------------------------------------------------- who becomes one person

  /** All numbers of everybody known as `base` end in the same ten digits `d`; and either
      some of the names are numbered and nobody is without that number, or none is and
      such groups are included. */
  ghost predicate OneNumber(db: Db, base: string, includeTierB: bool, d: string) {
    && (forall x, e :: Named(db, x, base) && HasNumber(db, x, e) ==> e == d)
    && if exists x, n :: Considered(db, x, base, Some(n)) then forall x :: Named(db, x, base) ==> HasNumber(db, x, d)
       else includeTierB
  }

  lemma SuffixedMeans(db: Db, base: string)
    ensures Suffixed(db, Group(db, base)) <==> exists x, n :: Considered(db, x, base, Some(n))
  {
    hide Considered, Loadable;
    if x :| x in Group(db, base) && SuffixOf(db, x).Some? {
      ConsideredMeans(db, x, base, SuffixOf(db, x));
      assert Considered(db, x, base, Some(SuffixOf(db, x).value));
    }
    if x, n :| Considered(db, x, base, Some(n)) {
      ConsideredMeans(db, x, base, Some(n));
    }
  }

  /** What the group of a base name is, in terms of what is written. */
  ghost predicate GroupMeans(db: Db, base: string) {
    && Group(db, base) <= db.people.Keys
    && (forall z :: Named(db, z, base) <==> z in Group(db, base))
    && (forall z, e :: z in db.people ==> (e in Phones(db, z) <==> HasNumber(db, z, e)))
    && (Suffixed(db, Group(db, base)) <==> exists x, n :: Considered(db, x, base, Some(n)))
  }

  lemma GroupIsMeant(db: Db, base: string)
    ensures GroupMeans(db, base)
  {
    SuffixedMeans(db, base);
    hide Considered, HasNumber, Phones, Loadable, Named, Suffixed;
    forall z ensures Named(db, z, base) <==> z in Group(db, base) {
      NamedMeans(db, z, base);
    }
    forall z, d | z in db.people ensures d in Phones(db, z) <==> HasNumber(db, z, d) {
      PhonesMean(db, z, d);
    }
  }

  /** Two people are selected together exactly if one number is written for both. */
  lemma SelectedMeans(db: Db, base: string, includeTierB: bool, x: Id, y: Id)
    requires x != y
    ensures {x, y} <= Selected(db, base, includeTierB)
       <==> exists d :: Named(db, x, base) && Named(db, y, base) && HasNumber(db, x, d) && HasNumber(db, y, d)
                          && OneNumber(db, base, includeTierB, d)
  {
    GroupIsMeant(db, base);
    hide Considered, HasNumber, Phones, Loadable, Named, Suffixed, Group, Selected, OneNumber, GroupMeans;
    if {x, y} <= Selected(db, base, includeTierB) {
      var d := OneNumberOf(db, base, includeTierB, x, y);
    }
    if d :| Named(db, x, base) && Named(db, y, base) && HasNumber(db, x, d) && HasNumber(db, y, d)
            && OneNumber(db, base, includeTierB, d) {
      OneNumberSelects(db, base, includeTierB, d, x, y);
    }
  }

  lemma OneNumberOf(db: Db, base: string, includeTierB: bool, x: Id, y: Id) returns (d: string)
    requires GroupMeans(db, base) && {x, y} <= Selected(db, base, includeTierB)
    ensures Named(db, x, base) && Named(db, y, base) && HasNumber(db, x, d) && HasNumber(db, y, d)
    ensures OneNumber(db, base, includeTierB, d)
  {
    hide Considered, HasNumber, Phones, Loadable, Named, Suffixed, Group;
    var g := Group(db, base);
    assert x in Sharers(db, g) && y in Sharers(db, g);
    d :| AllHaveOnly(db, Sharers(db, g), d);
    forall z, e | Named(db, z, base) && HasNumber(db, z, e) ensures e == d {
      assert z in Sharers(db, g);
    }
  }

  lemma OneNumberSelects(db: Db, base: string, includeTierB: bool, d: string, x: Id, y: Id)
    requires GroupMeans(db, base) && OneNumber(db, base, includeTierB, d) && x != y
    requires Named(db, x, base) && Named(db, y, base) && HasNumber(db, x, d) && HasNumber(db, y, d)
    ensures {x, y} <= Selected(db, base, includeTierB)
  {
    hide Considered, HasNumber, Phones, Loadable, Named, Suffixed, Group;
    var g := Group(db, base);
    var sharers := Sharers(db, g);
    assert {x, y} <= sharers;
    SubsetOfSameSize({x, y}, sharers);
    forall z | z in sharers ensures Phones(db, z) == {d} {
      assert Named(db, z, base) && forall e :: e in Phones(db, z) ==> HasNumber(db, z, e);
      assert exists e :: e in Phones(db, z);
    }
    assert AllHaveOnly(db, sharers, d);
    assert Suffixed(db, g) ==> sharers == g;
  }

  /** Among finitely many one ranks first. */
  lemma {:induction false} BestExists(db: Db, g: set<Id>) returns (s: Id)
    requires g != {} && g <= db.people.Keys
    ensures Best(db, s, g)
    decreases |g|
  {
    s :| s in g;
    var rest := g - {s};
    if rest != {} {
      var t := BestExists(db, rest);
      var a, b := RankAt(db, s), RankAt(db, t);
      assert a.id == s && b.id == t;
      hide RankAt, Less;
      LessIsTotal(a, b);
      if Less(a, b) {
        forall x | x in rest && x != t ensures Less(a, RankAt(db, x)) {
          LessTrans(a, b, RankAt(db, x));
        }
      } else {
        s := t;
      }
    }
  }

  ghost predicate Together(db: Db, includeTierB: bool, x: Id, y: Id) {
    exists s :: Assigned(db, includeTierB, x, s) && Assigned(db, includeTierB, y, s)
  }

  /** Two people are planned to become one exactly if they are known by one name, up to a
      number, and have one phone number, up to what precedes its last ten digits, which
      nobody of that name contradicts. */
  lemma PlannedTogether(db: Db, includeTierB: bool, x: Id, y: Id)
    requires x != y
    ensures Together(db, includeTierB, x, y)
       <==> exists base, d :: Named(db, x, base) && Named(db, y, base) && HasNumber(db, x, d) && HasNumber(db, y, d)
                                && OneNumber(db, base, includeTierB, d)
  {
    hide Considered, HasNumber, Best, Phones, Loadable, Selected, Named, OneNumber;
    if Together(db, includeTierB, x, y) {
      var s :| Assigned(db, includeTierB, x, s) && Assigned(db, includeTierB, y, s);
      SelectedTogetherBase(db, includeTierB, x, s);
      SelectedTogetherBase(db, includeTierB, y, s);
      SelectedMeans(db, BaseOf(db, s), includeTierB, x, y);
    }
    if base, d :| Named(db, x, base) && Named(db, y, base) && HasNumber(db, x, d) && HasNumber(db, y, d)
                  && OneNumber(db, base, includeTierB, d) {
      SelectedMeans(db, base, includeTierB, x, y);
      SelectedFromGroup(db, base, includeTierB);
      var s := BestExists(db, Selected(db, base, includeTierB));
      assert x in Group(db, base) && y in Group(db, base);
      assert Assigned(db, includeTierB, x, s) && Assigned(db, includeTierB, y, s);
    }
  }

  lemma SelectedTogetherBase(db: Db, includeTierB: bool, x: Id, s: Id)
    requires Assigned(db, includeTierB, x, s)
    ensures s in db.people && x in Selected(db, BaseOf(db, s), includeTierB)
  {
    SelectedFromGroup(db, BaseOf(db, x), includeTierB);
    hide Less, RankAt, Selected, Loadable;
  }

  /** People whose numbers differ in the last ten digits are never merged into one. */
  lemma DifferentNumbersApart(db: Db, includeTierB: bool, x: Id, y: Id, s: Id, p: string, q: string,
                              d: string, e: string)
    requires Carries(db, x, p + d) && Carries(db, y, q + e) && |d| == |e| == 10 && d != e
    requires forall c :: c in d || c in e ==> IsDigitChar(c)
    ensures !(Assigned(db, includeTierB, x, s) && Assigned(db, includeTierB, y, s))
  {
    EndsInItself(p, d);
    EndsInItself(q, e);
    assert HasNumber(db, x, d) && HasNumber(db, y, e);
    PhonesMean(db, x, d);
    PhonesMean(db, y, e);
    hide Phones, HasNumber, Assigned, Carries, IsDigitChar;
    if Assigned(db, includeTierB, x, s) && Assigned(db, includeTierB, y, s) {
      SameNumber(db, includeTierB, x, y, s);
      assert false;
    }
  }

  lemma SameNumber(db: Db, includeTierB: bool, x: Id, y: Id, s: Id)
    requires Assigned(db, includeTierB, x, s) && Assigned(db, includeTierB, y, s)
    ensures x in db.people && y in db.people
    ensures exists phone :: Phones(db, x) == {phone} && Phones(db, y) == {phone}
  {
    SelectedTogetherBase(db, includeTierB, x, s);
    SelectedTogetherBase(db, includeTierB, y, s);
    hide Phones, Loadable, Best, BaseOf, Assigned;
    var g := Selected(db, BaseOf(db, s), includeTierB);
    var phone :| AllHaveOnly(db, g, phone);
  }

  ghost predicate SomeNumbered(db: Db, base: string) {
    exists x, n :: Considered(db, x, base, Some(n))
  }

  ghost predicate Doubled(db: Db, base: string) {
    exists x, y, d :: x != y && Named(db, x, base) && Named(db, y, base) && HasNumber(db, x, d)
                      && HasNumber(db, y, d) && OneNumber(db, base, true, d)
  }

  /** The tier that is reported for a base name. Numbered names are of tier A or to be
      reviewed, others of tier B or C; tiers A and B are those of one number. */
  lemma TierMeans(db: Db, members: seq<Candidate>, base: string, includeTierB: bool)
    requires |members| >= 2 && Lists(db, members, Group(db, base))
    ensures var c := Decide(db, members, includeTierB);
            && c.tier in (if SomeNumbered(db, base) then {TierA, Review} else {TierB, TierC})
            && (c.tier in {TierA, TierB} <==> Doubled(db, base))
            && (c.survivor.Some? <==> c.tier == TierA || (c.tier == TierB && includeTierB))
  {
    var c := Decide(db, members, true);
    SurvivorSelects(db, members, base, true);
    GroupIsMeant(db, base);
    SuffixedLists(db, members, Group(db, base));
    assert c.survivor.Some? <==> c.tier in {TierA, TierB};
    hide AllPhones, WithPhone, SelectSurvivor, HasSuffix, Lists, Suffixed, Considered, HasNumber, Phones, Loadable;
    hide Named, OneNumber, Group;
    assert Selected(db, base, true) != {} <==> Doubled(db, base) by {
      hide Decide, Selected, GroupMeans;
      if x, y, d :| x != y && Named(db, x, base) && Named(db, y, base) && HasNumber(db, x, d)
                    && HasNumber(db, y, d) && OneNumber(db, base, true, d) {
        SelectedMeans(db, base, true, x, y);
      }
      if Selected(db, base, true) != {} {
        var x, y := TwoSelected(db, base, true);
        SelectedMeans(db, base, true, x, y);
      }
    }
    hide Doubled, Selected;
  }

  lemma TwoSelected(db: Db, base: string, includeTierB: bool) returns (x: Id, y: Id)
    requires Selected(db, base, includeTierB) != {}
    ensures x != y && {x, y} <= Selected(db, base, includeTierB)
  {
    hide Phones, Loadable;
    var g := Selected(db, base, includeTierB);
    x :| x in g;
    assert |g - {x}| >= 1;
    y :| y in g - {x};
  }

  // ------------------------------------------------------------------ who survives

  predicate Subscribes(db: Db, x: Id) {
    exists r :: r in db.refs && db.refs[r].owner == x && db.refs[r].kind == Subscriber
  }

  /** The rows that name `x`. */
  function Rows(db: Db, x: Id): set<RefId> {
    set r | r in db.refs && db.refs[r].owner == x
  }

  /** The survivor is a subscriber unless nobody is; among those left it has no number in
      its name, or the lowest; then the most rows; then it is the oldest; then it has the
      least identifier. */
  predicate Precedes(db: Db, s: Id, n: Option<nat>, x: Id, m: Option<nat>)
    requires s in db.people && x in db.people
  {
    if Subscribes(db, s) != Subscribes(db, x) then Subscribes(db, s)
    else if n != m then n.None? || (m.Some? && n.value < m.value)
    else if |Rows(db, s)| != |Rows(db, x)| then |Rows(db, s)| > |Rows(db, x)|
    else if db.people[s].createdAt != db.people[x].createdAt then db.people[s].createdAt < db.people[x].createdAt
    else s < x
  }

  lemma SurvivorPrecedes(db: Db, includeTierB: bool, x: Id, s: Id, base: string, n: Option<nat>, m: Option<nat>)
    requires Assigned(db, includeTierB, x, s) && x != s
    requires Considered(db, s, base, n) && Considered(db, x, base, m)
    ensures Precedes(db, s, n, x, m)
  {
    ConsideredMeans(db, s, base, n);
    ConsideredMeans(db, x, base, m);
    BestOfAssigned(db, includeTierB, x, s);
    hide Considered, Assigned, Phones, SplitSuffix, Loadable;
    LessPrecedes(db, s, x);
  }

  lemma LessPrecedes(db: Db, s: Id, x: Id)
    requires s in db.people && x in db.people && Less(RankAt(db, s), RankAt(db, x))
    ensures Precedes(db, s, SuffixOf(db, s), x, SuffixOf(db, x))
  {
    LinkedMeans(db, s);
    LinkedMeans(db, x);
    assert RefsOf(db, s) == Rows(db, s) && RefsOf(db, x) == Rows(db, x);
    hide Linked, Subscribes, RefsOf, Rows, SplitSuffix, Phones;
  }

  lemma BestOfAssigned(db: Db, includeTierB: bool, x: Id, s: Id)
    requires Assigned(db, includeTierB, x, s) && x != s
    ensures s in db.people && x in db.people && Less(RankAt(db, s), RankAt(db, x))
  {
    SelectedFromGroup(db, BaseOf(db, x), includeTierB);
    hide Less, RankAt, Selected, Loadable;
  }

  lemma LinkedMeans(db: Db, x: Id)
    ensures Linked(db, x) <==> Subscribes(db, x)
  {
    if r :| r in db.refs && db.refs[r].owner == x && db.refs[r].kind == Subscriber {
      assert db.refs[r] == Ref(x, Subscriber);
    }
  }
}
