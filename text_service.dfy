/** The in-memory text service: a list of stored text records, a ledger of
    idempotency keys, the submission handler that validates a text,
    reconciles it with the ledger and appends a record, and the search
    handler that filters the records by case-insensitive substring. */
module TextService {
  import opened Strings

  datatype Option<T> = None | Some(value: T)

  /** The longest text accepted, counted in characters before stripping. */
  const MaxLength := 280

  /** A stored snippet. The identifier stands for the random UUID string the
      service generates; here a counter supplies it. */
  datatype TextRecord = TextRecord(id: nat, text: string)

  /** What the ledger keeps for a key: the text first submitted under it and
      the record that submission produced. */
  datatype Entry = Entry(requestText: string, response: TextRecord)

  /** Why a request fails: one constructor per error the handlers raise. */
  datatype Failure =
    | EmptyText      // no non-whitespace character in the text
    | TooLong        // more than MaxLength characters
    | KeyConflict    // the key was first used with a different text
    | QueryRequired  // search query missing or blank
    | NoMatch        // search found nothing

  /** The HTTP status each failure is reported with. */
  function StatusCode(f: Failure): (r: nat)
    ensures 400 <= r < 500
    ensures r == 409 <==> f == KeyConflict
    ensures r == 404 <==> f == NoMatch
  {
    match f
    case EmptyText => 400
    case TooLong => 400
    case KeyConflict => 409
    case QueryRequired => 400
    case NoMatch => 404
  }

  /** What a submission returns. A first use returns the bare record; a
      replay returns the whole ledger entry, request text included. */
  datatype CreateOutcome =
    | Created(record: TextRecord)
    | Replayed(entry: Entry)
    | CreateRejected(failure: Failure)

  datatype SearchOutcome =
    | Found(records: seq<TextRecord>)
    | SearchRejected(failure: Failure)

  /** The service's state: the record list, the idempotency ledger and the
      next identifier the id supply hands out. */
  datatype StoreState = StoreState(texts: seq<TextRecord>, ledger: map<string, Entry>, nextId: nat)

  /** Both stores start empty when the process starts. */
  const Initial := StoreState([], map[], 0)

  /** An idempotency key takes part only when it is present and non-empty
      (an absent header and an empty one both fail the truthiness test
      `if idempotency_key:` in `create_texts`). */
  predicate KeyGiven(key: Option<string>) {
    key.Some? && key.value != ""
  }

  /** A text that passes validation. */
  predicate ValidText(text: string) {
    !Blank(text) && |text| <= MaxLength
  }

  // ---------------------------------------------------------------------
  // Submission
  // ---------------------------------------------------------------------

  /** The two validation checks, in the order of the checks in
      `create_texts`: emptiness first (an empty string, or one that strips
      to nothing), then the length of the unstripped text. */
  function Validate(text: string): (r: Option<Failure>)
    ensures r.None? ==> 0 < |text| <= MaxLength
  {
    if text == "" || Strip(text) == "" then Some(EmptyText)
    else if |text| > MaxLength then Some(TooLong)
    else None
  }

  /** Validation rejects exactly the blank texts as empty and exactly the
      non-blank texts over the limit as too long, and passes the rest. */
  lemma ValidateSpec(text: string)
    ensures Validate(text) == None <==> ValidText(text)
    ensures Validate(text) == Some(EmptyText) <==> Blank(text)
    ensures Validate(text) == Some(TooLong) <==> !Blank(text) && |text| > MaxLength
  {
    StripEmptyIffBlank(text);
  }

  /** One submission of `text` under `key` from state `s`: the outcome and
      the state afterwards. */
  function CreateStep(s: StoreState, text: string, key: Option<string>): (CreateOutcome, StoreState) {
    match Validate(text)
    case Some(f) => (CreateRejected(f), s)
    case None =>
      if KeyGiven(key) && key.value in s.ledger then
        var existing := s.ledger[key.value];
        if existing.requestText != text then (CreateRejected(KeyConflict), s)
        else (Replayed(existing), s)
      else
        var record := TextRecord(s.nextId, text);
        var ledger := if KeyGiven(key) then s.ledger[key.value := Entry(text, record)] else s.ledger;
        (Created(record), StoreState(s.texts + [record], ledger, s.nextId + 1))
  }

  /** The invariant the submission handler keeps. Every stored text passed
      validation; identifiers are distinct and below the next one the supply
      hands out; every ledger key is non-empty, and its entry's response is
      a stored record whose text is the entry's request text; no record is
      the response of two keys. */
  ghost predicate Consistent(s: StoreState) {
    && (forall i :: 0 <= i < |s.texts| ==> s.texts[i].id < s.nextId && ValidText(s.texts[i].text))
    && (forall i, j :: 0 <= i < j < |s.texts| ==> s.texts[i].id != s.texts[j].id)
    && (forall k :: k in s.ledger ==>
          k != "" && s.ledger[k].response in s.texts && s.ledger[k].response.text == s.ledger[k].requestText)
    && (forall k1, k2 :: k1 in s.ledger && k2 in s.ledger && s.ledger[k1].response == s.ledger[k2].response ==> k1 == k2)
  }

  lemma InitialConsistent()
    ensures Consistent(Initial) && Initial.texts == [] && Initial.ledger == map[]
  {
  }

  /** An invalid text is rejected before the ledger is consulted, whatever
      the key, and nothing changes. */
  lemma CreateRejectsInvalid(s: StoreState, text: string, key: Option<string>)
    ensures Blank(text) ==> CreateStep(s, text, key) == (CreateRejected(EmptyText), s)
    ensures !Blank(text) && |text| > MaxLength ==> CreateStep(s, text, key) == (CreateRejected(TooLong), s)
    ensures !ValidText(text) ==> CreateStep(s, text, key).0.CreateRejected?
  {
    ValidateSpec(text);
  }

  /** Without a usable key a valid text always yields one new record with a
      fresh identifier, appended at the end; the ledger is untouched. */
  lemma CreateWithoutKey(s: StoreState, text: string, key: Option<string>)
    requires Consistent(s)
    requires ValidText(text) && !KeyGiven(key)
    ensures var (out, after) := CreateStep(s, text, key);
      && out == Created(TextRecord(s.nextId, text))
      && (forall r :: r in s.texts ==> r.id != out.record.id)
      && after == StoreState(s.texts + [out.record], s.ledger, s.nextId + 1)
  {
    ValidateSpec(text);
  }

  /** Under a key not yet in the ledger a valid text yields one new record
      with a fresh identifier, and the key is bound to that text and record;
      no other key changes. */
  lemma CreateWithNewKey(s: StoreState, text: string, k: string)
    requires Consistent(s)
    requires ValidText(text) && k != "" && k !in s.ledger
    ensures var (out, after) := CreateStep(s, text, Some(k));
      && out.Created?
      && out.record.text == text
      && (forall r :: r in s.texts ==> r.id != out.record.id)
      && after.texts == s.texts + [out.record]
      && after.ledger == s.ledger[k := Entry(text, out.record)]
  {
    ValidateSpec(text);
  }

  /** A key bound to the same text replays the stored entry and changes
      nothing. */
  lemma CreateReplay(s: StoreState, text: string, k: string)
    requires ValidText(text) && k != "" && k in s.ledger && s.ledger[k].requestText == text
    ensures CreateStep(s, text, Some(k)) == (Replayed(s.ledger[k]), s)
  {
    ValidateSpec(text);
  }

  /** A key bound to a different text is a conflict and changes nothing. */
  lemma CreateConflict(s: StoreState, text: string, k: string)
    requires ValidText(text) && k != "" && k in s.ledger && s.ledger[k].requestText != text
    ensures CreateStep(s, text, Some(k)) == (CreateRejected(KeyConflict), s)
  {
    ValidateSpec(text);
  }

  /** Every failure and every replay leaves both stores as they were. Stored
      records are never changed or removed and at most one is added; a bound
      key keeps its entry, and the ledger changes only when a keyed
      submission creates a record, by exactly that one key. */
  lemma CreateOnlyAppends(s: StoreState, text: string, key: Option<string>)
    ensures var (out, after) := CreateStep(s, text, key);
      && (!out.Created? ==> after == s)
      && |s.texts| <= |after.texts| <= |s.texts| + 1
      && after.texts[..|s.texts|] == s.texts
      && (forall k :: k in s.ledger ==> k in after.ledger && after.ledger[k] == s.ledger[k])
      && (after.ledger != s.ledger ==>
            out.Created? && KeyGiven(key) && after.ledger == s.ledger[key.value := Entry(text, out.record)])
  {
    var (out, after) := CreateStep(s, text, key);
    if out.Created? {
      assert after.texts[..|s.texts|] == s.texts;
    }
  }

  /** Submission keeps the invariant. */
  lemma CreatePreservesConsistent(s: StoreState, text: string, key: Option<string>)
    requires Consistent(s)
    ensures Consistent(CreateStep(s, text, key).1)
  {
    ValidateSpec(text);
    if ValidText(text) && !(KeyGiven(key) && key.value in s.ledger) {
      var record := TextRecord(s.nextId, text);
      var after := CreateStep(s, text, key).1;
      assert after.texts == s.texts + [record] && after.nextId == s.nextId + 1;
      forall i | 0 <= i < |after.texts|
        ensures after.texts[i].id < after.nextId && ValidText(after.texts[i].text)
      {
        if i < |s.texts| { assert after.texts[i] == s.texts[i]; }
      }
      forall i, j | 0 <= i < j < |after.texts|
        ensures after.texts[i].id != after.texts[j].id
      {
        assert after.texts[i] == s.texts[i];
        if j < |s.texts| { assert after.texts[j] == s.texts[j]; }
      }
      forall k | k in after.ledger
        ensures k != "" && after.ledger[k].response in after.texts
        ensures after.ledger[k].response.text == after.ledger[k].requestText
      {
        if !(KeyGiven(key) && k == key.value) {
          assert after.ledger[k] == s.ledger[k];
          assert s.ledger[k].response in s.texts;
        }
      }
      forall k | k in s.ledger ensures s.ledger[k].response != record {
        assert s.ledger[k].response in s.texts;
      }
      forall k1, k2 | k1 in after.ledger && k2 in after.ledger && after.ledger[k1].response == after.ledger[k2].response
        ensures k1 == k2
      {
        assert after.ledger[k1] == if KeyGiven(key) && k1 == key.value then Entry(text, record) else s.ledger[k1];
        assert after.ledger[k2] == if KeyGiven(key) && k2 == key.value then Entry(text, record) else s.ledger[k2];
      }
    }
  }

  /** Submitting the same text twice under the same usable key: the second
      call changes nothing; after a first use it replays that use's record,
      otherwise it repeats the first call's answer. */
  lemma KeyedCreateIdempotent(s: StoreState, text: string, key: Option<string>)
    requires KeyGiven(key)
    ensures var (out1, s1) := CreateStep(s, text, key);
      var (out2, s2) := CreateStep(s1, text, key);
      && s2 == s1
      && (out1.Created? ==> out2 == Replayed(Entry(text, out1.record)))
      && (!out1.Created? ==> out2 == out1)
  {
  }

  /** Two identical submissions under a fresh key store exactly one record,
      and the replay carries that record's identifier. */
  lemma RetryStoresOnce(s: StoreState, text: string, k: string)
    requires Consistent(s)
    requires ValidText(text) && k != "" && k !in s.ledger
    ensures var (out1, s1) := CreateStep(s, text, Some(k));
      var (out2, s2) := CreateStep(s1, text, Some(k));
      && out1.Created? && out2.Replayed?
      && out2.entry.response == out1.record
      && |s2.texts| == |s.texts| + 1
  {
    CreateWithNewKey(s, text, k);
    KeyedCreateIdempotent(s, text, Some(k));
  }

  /** A key first used with `a` refuses a different `b`: only `a` is stored
      and the key stays bound to `a`. */
  lemma ConflictKeepsFirstText(s: StoreState, a: string, b: string, k: string)
    requires Consistent(s)
    requires ValidText(a) && ValidText(b) && a != b && k != "" && k !in s.ledger
    ensures var (out1, s1) := CreateStep(s, a, Some(k));
      var (out2, s2) := CreateStep(s1, b, Some(k));
      && out1.Created?
      && out2 == CreateRejected(KeyConflict)
      && s2 == s1
      && s1.texts == s.texts + [out1.record]
      && s1.ledger[k].requestText == a
  {
    CreateWithNewKey(s, a, k);
    var s1 := CreateStep(s, a, Some(k)).1;
    CreateConflict(s1, b, k);
  }

  /** Without a key the same text submitted twice is stored twice, under two
      different identifiers. */
  lemma UnkeyedCreatesTwice(s: StoreState, text: string, key: Option<string>)
    requires Consistent(s)
    requires ValidText(text) && !KeyGiven(key)
    ensures var (out1, s1) := CreateStep(s, text, key);
      var (out2, s2) := CreateStep(s1, text, key);
      && out1.Created? && out2.Created?
      && out1.record.id != out2.record.id
      && s2.texts == s.texts + [out1.record, out2.record]
  {
    CreateWithoutKey(s, text, key);
    var s1 := CreateStep(s, text, key).1;
    CreatePreservesConsistent(s, text, key);
    CreateWithoutKey(s1, text, key);
  }

  // ---------------------------------------------------------------------
  // Search
  // ---------------------------------------------------------------------

  /** The lower-cased query occurs in the lower-cased text. */
  predicate Matches(r: TextRecord, query: string) {
    IsSubstring(Lower(query), Lower(r.text))
  }

  /** The condition of the search's list comprehension, for one query. */
  function MatchesQuery(query: string): TextRecord -> bool {
    r => Matches(r, query)
  }

  /** The list comprehension `[t for t in db if keep(t)]`: the records of
      `db` that satisfy `keep`, in their order in `db`. */
  function Filter(db: seq<TextRecord>, keep: TextRecord -> bool): (r: seq<TextRecord>)
    ensures |r| <= |db|
  {
    if db == [] then [] else Keep(db[0], keep) + Filter(db[1..], keep)
  }

  /** The record alone when it satisfies `keep`, nothing otherwise. */
  function Keep(r: TextRecord, keep: TextRecord -> bool): seq<TextRecord> {
    if keep(r) then [r] else []
  }

  /** The search handler: a missing or blank query is refused, an empty
      result is reported as not found. */
  function Search(db: seq<TextRecord>, contains: Option<string>): (r: SearchOutcome)
    ensures r.Found? ==> 0 < |r.records| <= |db|
  {
    if contains.None? || contains.value == "" || Strip(contains.value) == "" then
      SearchRejected(QueryRequired)
    else
      var results := Filter(db, MatchesQuery(contains.value));
      if results == [] then SearchRejected(NoMatch) else Found(results)
  }

  /** Filtering a concatenation filters each part and keeps their order;
      together with the one-record case this fixes the result as the
      records that satisfy the condition, in their original order. */
  lemma {:induction false} FilterConcat(a: seq<TextRecord>, b: seq<TextRecord>, keep: TextRecord -> bool)
    ensures Filter(a + b, keep) == Filter(a, keep) + Filter(b, keep)
  {
    if a == [] {
      assert a + b == b;
    } else {
      var c := a + b;
      assert c[0] == a[0] && c[1..] == a[1..] + b;
      FilterConcat(a[1..], b, keep);
      calc {
        Filter(c, keep);
        Keep(a[0], keep) + Filter(a[1..] + b, keep);
        Keep(a[0], keep) + (Filter(a[1..], keep) + Filter(b, keep));
        (Keep(a[0], keep) + Filter(a[1..], keep)) + Filter(b, keep);
      }
    }
  }

  /** Adding a record at the end adds it at the end of the result when it
      satisfies the condition, and changes nothing otherwise. */
  lemma FilterSnoc(db: seq<TextRecord>, r: TextRecord, keep: TextRecord -> bool)
    ensures Filter(db + [r], keep) == Filter(db, keep) + (if keep(r) then [r] else [])
  {
    FilterConcat(db, [r], keep);
    assert Filter([r], keep) == Keep(r, keep) + Filter([], keep);
  }

  /** A record is in the result exactly when it is in `db` and satisfies
      the condition. */
  lemma {:induction false} FilterMembership(db: seq<TextRecord>, keep: TextRecord -> bool, r: TextRecord)
    ensures r in Filter(db, keep) <==> r in db && keep(r)
  {
    if db != [] {
      FilterMembership(db[1..], keep, r);
      assert db == [db[0]] + db[1..];
    }
  }

  /** Two conditions that agree on every record of `db` select the same
      records. */
  lemma {:induction false} FilterAgrees(db: seq<TextRecord>, p: TextRecord -> bool, q: TextRecord -> bool)
    requires forall r :: r in db ==> p(r) == q(r)
    ensures Filter(db, p) == Filter(db, q)
  {
    if db != [] {
      assert db[0] in db;
      assert forall r :: r in db[1..] ==> r in db;
      FilterAgrees(db[1..], p, q);
    }
  }

  /** The search handler refuses exactly the missing and blank queries,
      reports not found exactly when no stored record matches, and otherwise
      returns exactly the matching records, in their stored order. */
  lemma SearchSpec(db: seq<TextRecord>, contains: Option<string>)
    ensures Search(db, contains) == SearchRejected(QueryRequired) <==> contains.None? || Blank(contains.value)
    ensures contains.Some? && !Blank(contains.value) ==>
      (Search(db, contains) == SearchRejected(NoMatch) <==> forall r :: r in db ==> !Matches(r, contains.value))
    ensures contains.Some? && !Blank(contains.value) && (exists r :: r in db && Matches(r, contains.value)) ==>
      Search(db, contains) == Found(Filter(db, MatchesQuery(contains.value)))
    ensures Search(db, contains).Found? ==>
      Search(db, contains).records == Filter(db, MatchesQuery(contains.value))
      && forall r :: r in Search(db, contains).records <==> r in db && Matches(r, contains.value)
  {
    if contains.Some? {
      var q := contains.value;
      StripEmptyIffBlank(q);
      forall r ensures r in Filter(db, MatchesQuery(q)) <==> r in db && Matches(r, q) {
        FilterMembership(db, MatchesQuery(q), r);
      }
      if Filter(db, MatchesQuery(q)) != [] {
        assert Filter(db, MatchesQuery(q))[0] in Filter(db, MatchesQuery(q));
      }
    }
  }

  /** Queries that differ only in letter case get the same answer. */
  lemma SearchIgnoresCase(db: seq<TextRecord>, q1: string, q2: string)
    requires Lower(q1) == Lower(q2)
    ensures Search(db, Some(q1)) == Search(db, Some(q2))
  {
    StripEmptyIffBlank(q1);
    StripEmptyIffBlank(q2);
    LowerPreservesBlank(q1);
    LowerPreservesBlank(q2);
    FilterAgrees(db, MatchesQuery(q1), MatchesQuery(q2));
  }

  /** A query and its lower-cased form get the same answer, since the
      handler lower-cases the query anyway. */
  lemma SearchLoweredQuery(db: seq<TextRecord>, q: string)
    ensures Search(db, Some(Lower(q))) == Search(db, Some(q))
  {
    LowerIdempotent(q);
    SearchIgnoresCase(db, Lower(q), q);
  }

  /** A submission changes what a search finds only by the record it
      creates, which is found last when it matches. */
  lemma FilterAfterCreate(s: StoreState, text: string, key: Option<string>, query: string)
    ensures var (out, after) := CreateStep(s, text, key);
      Filter(after.texts, MatchesQuery(query)) ==
        if out.Created? && Matches(out.record, query) then Filter(s.texts, MatchesQuery(query)) + [out.record]
        else Filter(s.texts, MatchesQuery(query))
  {
    var (out, after) := CreateStep(s, text, key);
    if out.Created? {
      FilterSnoc(s.texts, out.record, MatchesQuery(query));
    }
  }

  /** Submitting "Hello world" and then "goodbye" without a key to the
      empty store stores both, in that order, as records 0 and 1. */
  lemma ExampleStore()
    ensures CreateStep(CreateStep(Initial, "Hello world", None).1, "goodbye", None).1.texts
      == [TextRecord(0, "Hello world"), TextRecord(1, "goodbye")]
  {
    var t1, t2 := "Hello world", "goodbye";
    assert ValidText(t1) by { assert !IsSpace(t1[0]); }
    assert ValidText(t2) by { assert !IsSpace(t2[0]); }
    InitialConsistent();
    CreateWithoutKey(Initial, t1, None);
    var s1 := CreateStep(Initial, t1, None).1;
    assert s1 == StoreState([TextRecord(0, t1)], map[], 1);
    CreatePreservesConsistent(Initial, t1, None);
    CreateWithoutKey(s1, t2, None);
  }

  /** Over that store an upper-case query finds only the first record. */
  lemma SearchExampleFound(hello: TextRecord, bye: TextRecord, q: string)
    requires hello.text == "Hello world" && bye.text == "goodbye" && q == "HELLO"
    ensures Search([hello, bye], Some(q)) == Found([hello])
  {
    assert Matches(hello, q) by {
      assert Lower(hello.text)[..5] == Lower(q);
    }
    FirstCharNowhere(bye, q);
    var keep := MatchesQuery(q);
    assert Filter([bye], keep) == Keep(bye, keep) + Filter([], keep) == [];
    assert Filter([hello, bye], keep) == [hello] + Filter([bye], keep);
    assert !Blank(q) by { assert !IsSpace(q[0]); }
    StripEmptyIffBlank(q);
  }

  /** Over that store a query found nowhere is not found. */
  lemma SearchExampleNotFound(hello: TextRecord, bye: TextRecord, q: string)
    requires hello.text == "Hello world" && bye.text == "goodbye" && q == "xyz"
    ensures Search([hello, bye], Some(q)) == SearchRejected(NoMatch)
  {
    FirstCharNowhere(hello, q);
    FirstCharNowhere(bye, q);
    var keep := MatchesQuery(q);
    assert Filter([bye], keep) == Keep(bye, keep) + Filter([], keep) == [];
    assert Filter([hello, bye], keep) == Filter([bye], keep);
    assert !Blank(q) by { assert !IsSpace(q[0]); }
    StripEmptyIffBlank(q);
  }

  /** A record does not match a query whose first character, lower-cased,
      is the lower-cased form of no character of the record's text. */
  lemma FirstCharNowhere(r: TextRecord, query: string)
    requires query != []
    requires forall i :: 0 <= i < |r.text| ==> LowerChar(r.text[i]) != LowerChar(query[0])
    ensures !Matches(r, query)
  {
    FirstCharAbsent(Lower(query), Lower(r.text));
  }

  /** The running service: the two process-wide stores `texts_db` and
      `idempotency_store`, and the id supply standing in for `uuid4`. */
  class TextService {
    var texts: seq<TextRecord>
    var ledger: map<string, Entry>
    var nextId: nat

    function State(): StoreState
      reads this
    {
      StoreState(texts, ledger, nextId)
    }

    ghost predicate Valid()
      reads this
    {
      Consistent(State())
    }

    /** Both stores start empty. */
    constructor ()
      ensures Valid() && State() == Initial
    {
      texts, ledger, nextId := [], map[], 0;
    }

    /** POST /texts: validate, reconcile with the ledger, append and bind.
        The outcome and the new state are those of CreateStep, whose
        properties are the lemmas above. */
    method Create(text: string, key: Option<string>) returns (r: CreateOutcome)
      requires Valid()
      modifies this
      ensures Valid()
      ensures (r, State()) == CreateStep(old(State()), text, key)
    {
      ghost var s0 := State();
      ghost var step := CreateStep(s0, text, key);
      CreatePreservesConsistent(s0, text, key);
      if text == "" || Strip(text) == "" {
        r := CreateRejected(EmptyText);
        assert step == (r, s0);
        return;
      }
      if |text| > MaxLength {
        r := CreateRejected(TooLong);
        assert step == (r, s0);
        return;
      }
      if key.Some? && key.value != "" {
        if key.value in ledger {
          var existing := ledger[key.value];
          if existing.requestText != text {
            r := CreateRejected(KeyConflict);
            assert step == (r, s0);
            return;
          }
          r := Replayed(existing);
          assert step == (r, s0);
          return;
        }
      }
      var record := TextRecord(nextId, text);
      nextId := nextId + 1;
      texts := texts + [record];
      if key.Some? && key.value != "" {
        ledger := ledger[key.value := Entry(text, record)];
      }
      r := Created(record);
      assert step == (r, State());
    }

    /** GET /texts: scan the stored records in order, keeping those whose
        lower-cased text contains the lower-cased query. Reads the stores
        and changes nothing. */
    method Texts(contains: Option<string>) returns (r: SearchOutcome)
      ensures r == Search(texts, contains)
    {
      if contains.None? || contains.value == "" || Strip(contains.value) == "" {
        return SearchRejected(QueryRequired);
      }
      var query := contains.value;
      var results := [];
      var i := 0;
      while i < |texts|
        invariant 0 <= i <= |texts|
        invariant results == Filter(texts[..i], MatchesQuery(query))
      {
        FilterSnoc(texts[..i], texts[i], MatchesQuery(query));
        assert texts[..i + 1] == texts[..i] + [texts[i]];
        if Matches(texts[i], query) {
          results := results + [texts[i]];
        }
        i := i + 1;
      }
      assert texts[..i] == texts;
      assert Search(texts, contains) == if results == [] then SearchRejected(NoMatch) else Found(results);
      if results == [] {
        return SearchRejected(NoMatch);
      }
      return Found(results);
    }
  }
}
