/** The redaction of echoed request data, `_sanitize_validation_value` and
    `_is_sensitive_key` (app/errors.py:43-82). */
module Sanitizer {
  import opened Options
  import opened PyText

  /** A Python value as the sanitizer tells them apart.  A dictionary is the list of
      its items in insertion order, with each key given as `str(key)`; `Other` is any
      object the sanitizer can only turn into `str(value)`. */
  datatype Value =
    | Bytes(bytes: seq<bv8>)
    | Upload(filename: Option<string>)
    | Dict(items: seq<Item>)
    | List(elements: seq<Value>)
    | Tuple(elements: seq<Value>)
    | Set(elements: seq<Value>)
    | Str(text: string)
    | Number(number: real)
    | Bool(truth: bool)
    | Null
    | Other(shown: string)

  datatype Item = Item(key: string, value: Value)

  /** Library behaviour this model does not look into: `key.strip().lower()` and
      `bytes.decode("utf-8", errors="replace")`. */
  datatype Library = Library(fold: string -> string, decode: seq<bv8> -> string)

  const REDACTED := "[REDACTED]"

  const SENSITIVE_KEY_MARKERS: seq<string> :=
    ["password", "secret", "token", "api_key", "apikey", "authorization", "cookie"]

  /** `s.replace("-", "_")`. */
  function Underscored(s: string): string {
    seq(|s|, i requires 0 <= i < |s| => if s[i] == '-' then '_' else s[i])
  }

  /** `key and _is_sensitive_key(key)` (line 69). */
  predicate Sensitive(key: string, lib: Library) {
    key != "" && exists m :: m in SENSITIVE_KEY_MARKERS && Contains(Underscored(lib.fold(key)), m)
  }

  /** `d[key] = value` on a dictionary: an existing key keeps its place. */
  function Put(items: seq<Item>, key: string, value: Value): seq<Item> {
    if items == [] then [Item(key, value)]
    else if items[0].key == key then [Item(key, value)] + items[1..]
    else [items[0]] + Put(items[1..], key, value)
  }

  /** `_sanitize_validation_value(value)`, without a key. */
  function Sanitize(v: Value, lib: Library): Value
    decreases v, 1
  {
    match v
    case Bytes(b) => Str(lib.decode(b))
    case Upload(f) => Str(if f.Some? && f.value != "" then f.value else "upload")
    case Dict(items) => Dict(SanitizeItems(items, lib))
    case List(es) => List(SanitizeAll(es, lib))
    case Tuple(es) => List(SanitizeAll(es, lib))
    case Set(es) => List(SanitizeAll(es, lib))
    case Str(_) => v
    case Number(_) => v
    case Bool(_) => v
    case Null => v
    case Other(s) => Str(s)
  }

  function SanitizeAll(es: seq<Value>, lib: Library): seq<Value>
    decreases es, 0
  {
    if es == [] then [] else SanitizeAll(es[..|es| - 1], lib) + [Sanitize(es[|es| - 1], lib)]
  }

  /** The dictionary comprehension of lines 75-78: items are put one after the other. */
  function SanitizeItems(items: seq<Item>, lib: Library): seq<Item>
    decreases items, 0
  {
    if items == [] then []
    else
      var item := items[|items| - 1];
      Put(SanitizeItems(items[..|items| - 1], lib), item.key, SanitizeUnder(item, lib))
  }

  /** `_sanitize_validation_value(item.value, key=item.key)`. */
  function SanitizeUnder(item: Item, lib: Library): Value
    decreases item, 2
  {
    if Sensitive(item.key, lib) then Str(REDACTED) else Sanitize(item.value, lib)
  }

  // ------------------------------------------------------------- non-interference

  /** The two values differ at most beneath sensitive keys, at any depth. */
  ghost predicate SameOutsideSecrets(v: Value, w: Value, lib: Library)
    decreases v
  {
    match (v, w)
    case (Dict(a), Dict(b)) =>
      |a| == |b| && forall i {:trigger a[i]} {:trigger b[i]} :: 0 <= i < |a| ==>
        a[i].key == b[i].key
        && (Sensitive(a[i].key, lib) || SameOutsideSecrets(a[i].value, b[i].value, lib))
    case (List(a), List(b)) => AllSame(a, b, lib)
    case (Tuple(a), Tuple(b)) => AllSame(a, b, lib)
    case (Set(a), Set(b)) => AllSame(a, b, lib)
    case _ => v == w
  }

  ghost predicate AllSame(a: seq<Value>, b: seq<Value>, lib: Library)
    decreases a
  {
    |a| == |b| && forall i {:trigger a[i]} {:trigger b[i]} :: 0 <= i < |a| ==> SameOutsideSecrets(a[i], b[i], lib)
  }

  /** Nothing beneath a sensitive key reaches the response. */
  lemma {:induction false} SecretsDoNotMatter(v: Value, w: Value, lib: Library)
    requires SameOutsideSecrets(v, w, lib)
    ensures Sanitize(v, lib) == Sanitize(w, lib)
    decreases v, 1
  {
    match v
    case Dict(items) => SecretsDoNotMatterItems(items, w.items, lib);
    case List(es) => SecretsDoNotMatterAll(es, w.elements, lib);
    case Tuple(es) => SecretsDoNotMatterAll(es, w.elements, lib);
    case Set(es) => SecretsDoNotMatterAll(es, w.elements, lib);
    case _ =>
  }

  lemma {:induction false} SecretsDoNotMatterAll(a: seq<Value>, b: seq<Value>, lib: Library)
    requires AllSame(a, b, lib)
    ensures SanitizeAll(a, lib) == SanitizeAll(b, lib)
    decreases a, 0
  {
    if a != [] {
      var n := |a| - 1;
      SecretsDoNotMatterAll(a[..n], b[..n], lib);
      SecretsDoNotMatter(a[n], b[n], lib);
    }
  }

  lemma {:induction false} SecretsDoNotMatterItems(a: seq<Item>, b: seq<Item>, lib: Library)
    requires |a| == |b|
    requires forall i {:trigger a[i]} {:trigger b[i]} :: 0 <= i < |a| ==>
               a[i].key == b[i].key
               && (Sensitive(a[i].key, lib) || SameOutsideSecrets(a[i].value, b[i].value, lib))
    ensures SanitizeItems(a, lib) == SanitizeItems(b, lib)
    decreases a, 0
  {
    if a != [] {
      var n := |a| - 1;
      SecretsDoNotMatterItems(a[..n], b[..n], lib);
      if !Sensitive(a[n].key, lib) {
        SecretsDoNotMatter(a[n].value, b[n].value, lib);
      }
    }
  }

  // ------------------------------------------------------------- clean output

  ghost predicate DistinctKeys(items: seq<Item>) {
    forall i, j :: 0 <= i < j < |items| ==> items[i].key != items[j].key
  }

  /** Data that JSON can carry, with no dictionary key twice and every sensitive key redacted. */
  ghost predicate Clean(v: Value, lib: Library)
    decreases v
  {
    match v
    case Dict(items) =>
      DistinctKeys(items)
      && forall item :: item in items ==> CleanItem(item, lib)
    case List(es) => forall e :: e in es ==> Clean(e, lib)
    case Str(_) => true
    case Number(_) => true
    case Bool(_) => true
    case Null => true
    case _ => false
  }

  ghost predicate CleanItem(item: Item, lib: Library)
    decreases item
  {
    if Sensitive(item.key, lib) then item.value == Str(REDACTED) else Clean(item.value, lib)
  }

  lemma {:induction false} PutClean(items: seq<Item>, key: string, value: Value, lib: Library)
    requires DistinctKeys(items) && forall item :: item in items ==> CleanItem(item, lib)
    requires CleanItem(Item(key, value), lib)
    ensures var r := Put(items, key, value);
            && DistinctKeys(r) && (forall item :: item in r ==> CleanItem(item, lib))
            && (forall item :: item in r ==>
                item.key == key || exists i :: 0 <= i < |items| && items[i].key == item.key)
  {
    if items != [] && items[0].key != key {
      PutClean(items[1..], key, value, lib);
    }
  }

  /** The output is clean, whatever the input. */
  lemma {:induction false} SanitizeIsClean(v: Value, lib: Library)
    ensures Clean(Sanitize(v, lib), lib)
    decreases v, 1
  {
    match v
    case Dict(items) => SanitizeItemsClean(items, lib);
    case List(es) => SanitizeAllClean(es, lib);
    case Tuple(es) => SanitizeAllClean(es, lib);
    case Set(es) => SanitizeAllClean(es, lib);
    case _ =>
  }

  lemma {:induction false} SanitizeAllClean(es: seq<Value>, lib: Library)
    ensures forall e :: e in SanitizeAll(es, lib) ==> Clean(e, lib)
    decreases es, 0
  {
    if es != [] {
      SanitizeAllClean(es[..|es| - 1], lib);
      SanitizeIsClean(es[|es| - 1], lib);
    }
  }

  lemma {:induction false} SanitizeItemsClean(items: seq<Item>, lib: Library)
    ensures DistinctKeys(SanitizeItems(items, lib))
    ensures forall item :: item in SanitizeItems(items, lib) ==> CleanItem(item, lib)
    decreases items, 0
  {
    if items != [] {
      var item := items[|items| - 1];
      SanitizeItemsClean(items[..|items| - 1], lib);
      if !Sensitive(item.key, lib) {
        SanitizeIsClean(item.value, lib);
      }
      PutClean(SanitizeItems(items[..|items| - 1], lib), item.key, SanitizeUnder(item, lib), lib);
    }
  }

  lemma {:induction false} PutNew(items: seq<Item>, key: string, value: Value)
    requires forall i :: 0 <= i < |items| ==> items[i].key != key
    ensures Put(items, key, value) == items + [Item(key, value)]
  {
    if items != [] {
      PutNew(items[1..], key, value);
    }
  }

  /** Clean data passes unchanged. */
  lemma {:induction false} CleanIsFixed(v: Value, lib: Library)
    requires Clean(v, lib)
    ensures Sanitize(v, lib) == v
    decreases v, 1
  {
    match v
    case Dict(items) => CleanItemsFixed(items, lib);
    case List(es) => CleanAllFixed(es, lib);
    case _ =>
  }

  lemma {:induction false} CleanAllFixed(es: seq<Value>, lib: Library)
    requires forall e :: e in es ==> Clean(e, lib)
    ensures SanitizeAll(es, lib) == es
    decreases es, 0
  {
    if es != [] {
      CleanAllFixed(es[..|es| - 1], lib);
      CleanIsFixed(es[|es| - 1], lib);
    }
  }

  lemma {:induction false} CleanItemsFixed(items: seq<Item>, lib: Library)
    requires DistinctKeys(items) && forall item :: item in items ==> CleanItem(item, lib)
    ensures SanitizeItems(items, lib) == items
    decreases items, 0
  {
    if items != [] {
      var n := |items| - 1;
      CleanItemsFixed(items[..n], lib);
      assert items[n] in items && CleanItem(items[n], lib);
      if !Sensitive(items[n].key, lib) {
        CleanIsFixed(items[n].value, lib);
      }
      PutNew(items[..n], items[n].key, items[n].value);
    }
  }

  /** The values the sanitizer leaves alone are exactly the clean ones. */
  lemma FixedExactlyWhenClean(v: Value, lib: Library)
    ensures Sanitize(v, lib) == v <==> Clean(v, lib)
  {
    SanitizeIsClean(v, lib);
    if Clean(v, lib) {
      CleanIsFixed(v, lib);
    }
  }

  lemma SanitizeIdempotent(v: Value, lib: Library)
    ensures Sanitize(Sanitize(v, lib), lib) == Sanitize(v, lib)
  {
    SanitizeIsClean(v, lib);
    CleanIsFixed(Sanitize(v, lib), lib);
  }

  // ---------------------------------------------------------- what is shown instead

  /** `word` stands in `s` at `i`, where `s` may have a dash for an underscore. */
  predicate ReadsAt(s: string, word: string, i: nat) {
    i + |word| <= |s|
    && forall k :: 0 <= k < |word| ==> s[i + k] == if s[i + k] == '-' && word[k] == '_' then '-' else word[k]
  }

  /** A key is sensitive if one of these words is anywhere in it. */
  ghost predicate HasSecretWord(key: string, lib: Library) {
    key != "" && exists word, i: nat ::
      word in {"password", "secret", "token", "api_key", "apikey", "authorization", "cookie"}
      && ReadsAt(lib.fold(key), word, i)
  }

  lemma SensitiveMeans(key: string, lib: Library)
    ensures Sensitive(key, lib) <==> HasSecretWord(key, lib)
  {
    var s := lib.fold(key);
    var words := {"password", "secret", "token", "api_key", "apikey", "authorization", "cookie"};
    SecretWords();
    hide Contains, ReadsAt;
    forall word | word in words ensures Contains(Underscored(s), word) <==> exists i: nat :: ReadsAt(s, word, i) {
      ContainsReads(s, word);
    }
    hide Underscored;
    if word :| word in SENSITIVE_KEY_MARKERS && Contains(Underscored(s), word) {
      var i: nat :| ReadsAt(s, word, i);
    }
    if word, i: nat :| word in words && ReadsAt(s, word, i) {
      assert Contains(Underscored(s), word);
    }
  }

  lemma SecretWords()
    ensures var words := {"password", "secret", "token", "api_key", "apikey", "authorization", "cookie"};
            forall word :: (word in SENSITIVE_KEY_MARKERS <==> word in words) && (word in words ==> '-' !in word)
  {
    var m := SENSITIVE_KEY_MARKERS;
    assert m[0] == "password" && m[1] == "secret" && m[2] == "token" && m[3] == "api_key" && m[4] == "apikey"
           && m[5] == "authorization" && m[6] == "cookie";
  }

  lemma ContainsReads(s: string, word: string)
    requires '-' !in word
    ensures Contains(Underscored(s), word) <==> exists i: nat :: ReadsAt(s, word, i)
  {
    forall i: nat ensures OccursAt(Underscored(s), word, i) <==> ReadsAt(s, word, i) {
      OccursReads(s, word, i);
    }
    hide OccursAt, Underscored;
    if i: nat :| ReadsAt(s, word, i) {
      assert i <= |Underscored(s)|;
    }
  }

  lemma OccursReads(s: string, word: string, i: nat)
    requires '-' !in word
    ensures OccursAt(Underscored(s), word, i) <==> ReadsAt(s, word, i)
    ensures ReadsAt(s, word, i) ==> i <= |Underscored(s)|
  {
    var u := Underscored(s);
    if i + |word| <= |s| {
      var slice := u[i..i + |word|];
      forall k | 0 <= k < |word|
        ensures slice[k] == word[k] <==> s[i + k] == if s[i + k] == '-' && word[k] == '_' then '-' else word[k]
      {
        assert word[k] in word;
      }
    }
  }

  predicate HasKey(items: seq<Item>, key: string) {
    exists i :: 0 <= i < |items| && items[i].key == key
  }

  /** The last item of its key. */
  predicate LastOf(items: seq<Item>, i: nat, key: string) {
    i < |items| && items[i].key == key && forall k :: i < k < |items| ==> items[k].key != key
  }

  /** `r` is what may be shown of `v`: bytes decoded, an upload by its file name, tuples and
      sets as lists of as many elements in order, other objects as text; and under each key
      of a dictionary what may be shown of its last value, or nothing if the key is sensitive. */
  ghost predicate Shown(v: Value, r: Value, lib: Library)
    decreases v, 1
  {
    match v
    case Bytes(bytes) => r == Str(lib.decode(bytes))
    case Upload(name) => r == Str(if name in {None, Some("")} then "upload" else name.value)
    case Dict(items) => r.Dict? && ItemsShown(items, r.items, lib)
    case List(es) => r.List? && AllShown(es, r.elements, lib)
    case Tuple(es) => r.List? && AllShown(es, r.elements, lib)
    case Set(es) => r.List? && AllShown(es, r.elements, lib)
    case Other(text) => r == Str(text)
    case _ => r == v
  }

  ghost predicate AllShown(es: seq<Value>, rs: seq<Value>, lib: Library)
    decreases es, 0
  {
    |es| == |rs| && forall i :: 0 <= i < |es| ==> Shown(es[i], rs[i], lib)
  }

  ghost predicate ItemsShown(items: seq<Item>, rs: seq<Item>, lib: Library)
    decreases items, 0
  {
    && (forall key :: HasKey(items, key) <==> HasKey(rs, key))
    && forall k, i: nat :: 0 <= k < |rs| && LastOf(items, i, rs[k].key) ==> ItemShown(items[i], rs[k].value, lib)
  }

  ghost predicate ItemShown(item: Item, r: Value, lib: Library)
    decreases item, 2
  {
    if HasSecretWord(item.key, lib) then r == Str("[REDACTED]") else Shown(item.value, r, lib)
  }

  lemma {:induction false} PutItem(items: seq<Item>, key: string, value: Value)
    requires DistinctKeys(items)
    ensures var r := Put(items, key, value);
            && |r| >= |items|
            && (forall k :: 0 <= k < |r| ==>
                 if r[k].key == key then r[k].value == value else k < |items| && r[k] == items[k])
            && (forall q :: HasKey(r, q) <==> q == key || HasKey(items, q))
  {
    var r := Put(items, key, value);
    if items == [] {
      assert r[0].key == key;
    } else if items[0].key == key {
      assert r[0].key == key && forall i :: 1 <= i < |items| ==> r[i] == items[i];
      forall q ensures HasKey(r, q) <==> q == key || HasKey(items, q) {
        if i :| 0 <= i < |items| && items[i].key == q {
          assert r[i].key == q;
        }
      }
    } else {
      var rest, t := items[1..], Put(items[1..], key, value);
      PutItem(rest, key, value);
      assert r[0] == items[0] && forall i :: 1 <= i < |r| ==> r[i] == t[i - 1];
      forall q ensures HasKey(r, q) <==> q == key || HasKey(items, q) {
        FirstHasKey(items, q);
        FirstHasKey(r, q);
      }
    }
  }

  lemma FirstHasKey(items: seq<Item>, key: string)
    requires items != []
    ensures HasKey(items, key) <==> items[0].key == key || HasKey(items[1..], key)
  {
    if HasKey(items[1..], key) {
      var i :| 0 <= i < |items| - 1 && items[1..][i].key == key;
      assert items[i + 1].key == key;
    }
    if i :| 0 <= i < |items| && items[i].key == key {
      assert i > 0 ==> items[1..][i - 1].key == key;
    }
  }

  lemma LastHasKey(items: seq<Item>, key: string)
    requires items != []
    ensures var n := |items| - 1; HasKey(items, key) <==> items[n].key == key || HasKey(items[..n], key)
  {
    var n := |items| - 1;
    if i :| 0 <= i < |items| && items[i].key == key {
      assert i < n ==> items[..n][i].key == key;
    }
    if i :| 0 <= i < n && items[..n][i].key == key {
      assert items[i].key == key;
    }
  }

  /** One more item: its key is there, with what may be shown of it. */
  lemma ShownStep(items: seq<Item>, rs: seq<Item>, r: seq<Item>, value: Value, lib: Library)
    requires items != [] && ItemsShown(items[..|items| - 1], rs, lib)
    requires var item := items[|items| - 1];
             && (forall k :: 0 <= k < |r| ==>
                  if r[k].key == item.key then r[k].value == value else k < |rs| && r[k] == rs[k])
             && (forall q :: HasKey(r, q) <==> q == item.key || HasKey(rs, q))
             && ItemShown(item, value, lib)
    ensures ItemsShown(items, r, lib)
  {
    hide HasSecretWord;
    var n := |items| - 1;
    var init, item := items[..n], items[n];
    forall key ensures HasKey(items, key) <==> HasKey(r, key) {
      LastHasKey(items, key);
    }
    forall k, i: nat | 0 <= k < |r| && LastOf(items, i, r[k].key)
      ensures ItemShown(items[i], r[k].value, lib)
    {
      if r[k].key == item.key {
        assert items[n].key == r[k].key && i == n;
      } else {
        assert i < n && forall j :: i < j < n ==> init[j] == items[j];
        assert LastOf(init, i, rs[k].key) && init[i] == items[i];
      }
    }
  }

  lemma {:induction false} SanitizeShows(v: Value, lib: Library)
    ensures Shown(v, Sanitize(v, lib), lib)
    decreases v, 1
  {
    match v
    case Dict(items) => ItemsShow(items, lib);
    case List(es) => AllShow(es, lib);
    case Tuple(es) => AllShow(es, lib);
    case Set(es) => AllShow(es, lib);
    case _ =>
  }

  lemma {:induction false} AllShow(es: seq<Value>, lib: Library)
    ensures AllShown(es, SanitizeAll(es, lib), lib)
    decreases es, 0
  {
    if es != [] {
      var n := |es| - 1;
      AllShow(es[..n], lib);
      SanitizeShows(es[n], lib);
      assert forall i :: 0 <= i < n ==> es[..n][i] == es[i];
    }
  }

  lemma {:induction false} ItemsShow(items: seq<Item>, lib: Library)
    ensures ItemsShown(items, SanitizeItems(items, lib), lib)
    decreases items, 0
  {
    if items != [] {
      var n := |items| - 1;
      var item, rs := items[n], SanitizeItems(items[..n], lib);
      ItemsShow(items[..n], lib);
      if !Sensitive(item.key, lib) {
        SanitizeShows(item.value, lib);
      }
      SensitiveMeans(item.key, lib);
      SanitizeItemsClean(items[..n], lib);
      assert ItemShown(item, SanitizeUnder(item, lib), lib);
      hide Put, DistinctKeys, HasSecretWord;
      PutItem(rs, item.key, SanitizeUnder(item, lib));
      ShownStep(items, rs, SanitizeItems(items, lib), SanitizeUnder(item, lib), lib);
    }
  }
}
