# Text service: idempotent submission and substring search

This project models the core of a small HTTP text service (`main.py`). The
service keeps two process-wide stores: `texts_db`, an ordered list of records
`{id, text}`, and `idempotency_store`, a map from an idempotency key to the
entry `{request_text, response}`. It has two handlers:

- `create_texts` (POST /texts) rejects a text that is empty or only
  whitespace, then one longer than 280 characters. If a non-empty
  idempotency key is given and is already bound, it returns a conflict when
  the text differs and otherwise replays the stored entry. In every other
  case it appends a new record with a fresh id and, if a key was given,
  binds the key to the text and that record.
- `texts` (GET /texts) rejects a missing or blank `contains` query. Otherwise
  it returns, in insertion order, every record whose lower-cased text
  contains the lower-cased query, and answers "not found" when nothing
  matches.

The model has two modules:

- `Strings` (`strings.dfy`) holds the Python string operations the handlers
  use: whitespace, `strip`, `lower` and the substring test `in`.
- `TextService` (`text_service.dfy`) holds the rest:
  - the records, ledger entries, failures and outcomes as datatypes;
  - the state as a value (`StoreState`);
  - the two handlers as specification functions (`CreateStep`, `Search`);
  - the lemmas about them;
  - the class `TextService`, whose fields `texts`, `ledger` and `nextId` are
    the two global stores plus the id supply. Its method `Create` updates
    them in place, as `create_texts` does. Its method `Texts` scans the
    records with a loop, as the list comprehension does. Each method is
    proved equal to its specification function.

The handlers' outcomes are a datatype. A failure carries its kind:
`EmptyText`, `TooLong` and `QueryRequired` are reported as 400, `KeyConflict`
as 409 and `NoMatch` as 404 (`StatusCode`).

On replay, `create_texts` returns the whole ledger entry
`{request_text, response}` (main.py:35), not the bare record it returns on
first use (main.py:48). The model keeps this: the outcome is `Replayed(entry)`
on replay and `Created(record)` on first use. `RetryStoresOnce` shows that the
replayed entry's `response` is the record created on first use.

The model keeps two choices the code makes:

- a search with no match fails with `NoMatch` (404, main.py:61-65) rather
  than returning an empty list;
- the emptiness check (main.py:21) runs before the length check
  (main.py:25).

## Model

| member | source | states |
|---|---|---|
| Strings.IsSpace | main.py:21 | the characters `strip()` removes (here and at main.py:53); Blank is built on it, and StripEmptyIffBlank states that `strip()` empties exactly the strings made of them |
| Strings.TrimStart | main.py:21 | `s.lstrip()`; TrimStartSpec states what it returns |
| Strings.TrimEnd | main.py:21 | `s.rstrip()`; TrimEndSpec states what it returns |
| Strings.Strip | main.py:21 | `s.strip()`; StripEmptyIffBlank states when it is empty and that a non-empty result starts and ends with non-whitespace |
| Strings.LowerChar | main.py:58 | `str.lower()` on one character; LowerPreservesBlank and LowerIdempotent state its properties |
| Strings.Lower | main.py:58 | `str.lower()`; LowerIdempotent and LowerPreservesBlank state its properties |
| Strings.IsSubstring | main.py:58 | `needle in haystack`; IsSubstringSpec states it holds exactly when the needle occurs at some index |
| Strings.TrimStartSpec | main.py:21 | `lstrip()` returns a suffix of its input, removes only whitespace, and the result is empty or starts with a non-whitespace character |
| Strings.TrimEndSpec | main.py:21 | `rstrip()` returns a prefix of its input, removes only whitespace, and the result is empty or ends with a non-whitespace character |
| Strings.StripEmptyIffBlank | main.py:21 | `s.strip()` is empty if and only if every character of `s` is whitespace; a non-empty result starts and ends with a non-whitespace character |
| Strings.BlankTrimsAway | main.py:21 | a string made only of whitespace loses every character to `lstrip()` |
| Strings.IsSubstringSpec | main.py:58 | the recursive substring test `needle in haystack` holds if and only if some slice of the haystack equals the needle |
| Strings.SubstringWitness | main.py:58 | where the substring test holds, it yields an index at which the needle occurs |
| Strings.OccursAtIsSubstring | main.py:58 | a needle occurring at some index passes the substring test |
| Strings.FirstCharAbsent | main.py:58 | a non-empty needle whose first character appears nowhere in the haystack is not in it |
| Strings.LowerIdempotent | main.py:58 | lower-casing twice is the same as lower-casing once |
| Strings.LowerPreservesBlank | main.py:53 | a query is blank exactly when its lower-cased form is blank |
| TextService.StatusCode | main.py:22-63 | every failure is a client error (4xx): 400 for an empty or too long text (main.py:22, 26) and a missing query (main.py:54), 409 exactly for a key conflict (main.py:33), 404 exactly for a search with no match (main.py:63) |
| TextService.KeyGiven | main.py:29 | the truthiness test on the idempotency key; CreateWithoutKey, CreateWithNewKey and CreatePreservesConsistent state its effect |
| TextService.Validate | main.py:20-26 | a text that passes has between 1 and 280 characters; ValidateSpec states exactly which texts fail with which failure |
| TextService.CreateStep | main.py:16-48 | `create_texts` on a state value; CreateRejectsInvalid, CreateWithoutKey, CreateWithNewKey, CreateReplay, CreateConflict, CreateOnlyAppends and CreatePreservesConsistent state its outcomes and new state |
| TextService.ValidateSpec | main.py:20-26 | validation passes exactly the texts that are not blank and have at most 280 characters; it fails with EmptyText exactly on blank texts (the empty one included) and with TooLong exactly on non-blank texts over 280 characters |
| TextService.CreateRejectsInvalid | main.py:21-26 | a blank text is rejected as EmptyText, and a non-blank text over 280 characters as TooLong, whatever the key; neither store changes |
| TextService.CreateWithoutKey | main.py:29-48 | with no key or an empty key, a valid text yields Created with a new record. The record holds the submitted text and an id used by no stored record. It is appended at the end of the records, the ledger is unchanged, and the id supply advances by one |
| TextService.CreateWithNewKey | main.py:29-46 | under a non-empty key not yet bound, a valid text yields Created with a new record. The record holds the text and a fresh id and is appended at the end. The ledger gains exactly the binding of the key to `{request_text: text, response: record}` |
| TextService.CreateReplay | main.py:29-35 | under a key bound to the same text, the outcome is Replayed with the stored entry, and the state is unchanged |
| TextService.CreateConflict | main.py:29-33 | under a key bound to a different text, the outcome is a KeyConflict failure, and the state is unchanged |
| TextService.CreateOnlyAppends | main.py:37-46 | every failure and every replay leaves the state unchanged. Existing records are never changed or removed, and at most one is added. A bound key keeps its entry. The ledger changes only when a keyed submission creates a record, and then only by binding that key |
| TextService.InitialConsistent | main.py:8-9 | the empty initial stores satisfy the store invariant |
| TextService.CreatePreservesConsistent | main.py:37-46 | submission preserves the store invariant: every stored text is valid, ids are distinct and below the next id, and every ledger key is non-empty. Each entry's response is a stored record whose text equals the entry's request text, and no record is the response of two keys |
| TextService.KeyedCreateIdempotent | main.py:29-46 | submitting the same text twice under the same non-empty key: the second call changes nothing. After a first use it replays that use's record; otherwise it repeats the first answer |
| TextService.RetryStoresOnce | main.py:29-46 | two identical submissions under a fresh key add exactly one record. The second is a replay whose response is the record from the first |
| TextService.ConflictKeepsFirstText | main.py:29-46 | a key first used with text a then with a different b: the second call is a KeyConflict and changes nothing. Only a's record was added, and the key stays bound to a |
| TextService.UnkeyedCreatesTwice | main.py:37-42 | without a key, the same text submitted twice is stored twice, under two different ids |
| TextService.Matches | main.py:58 | the condition of the list comprehension; FirstCharNowhere and SearchIgnoresCase state its properties |
| TextService.Filter | main.py:56-59 | the list comprehension keeps at most the records it is given; FilterMembership, FilterConcat and FilterSnoc state which records and in what order |
| TextService.Search | main.py:52-66 | a Found answer holds at least one and at most all stored records; SearchSpec states each outcome exactly |
| TextService.FilterConcat | main.py:56-59 | the list comprehension keeps the order of the records: filtering a concatenation concatenates the filtered parts |
| TextService.FilterSnoc | main.py:56-59 | a record appended to the store is appended to the filtered result exactly when it satisfies the condition |
| TextService.FilterMembership | main.py:56-59 | a record is in the filtered result if and only if it is stored and satisfies the condition |
| TextService.SearchSpec | main.py:52-66 | search fails with QueryRequired if and only if the query is missing or blank. For a real query it fails with NoMatch if and only if no stored record matches. When some stored record matches a real query, the answer is Found with the stored records filtered in order; a record is among them if and only if its lower-cased text contains the lower-cased query |
| TextService.FilterAgrees | main.py:56-59 | two conditions that agree on every stored record select the same records |
| TextService.SearchIgnoresCase | main.py:53-66 | two queries that differ only in letter case get the same search answer |
| TextService.SearchLoweredQuery | main.py:58 | a query and its lower-cased form get the same search answer |
| TextService.FilterAfterCreate | main.py:42 | after a submission the filtered records are those from before, plus the created record at the end when it matches |
| TextService.ExampleStore | main.py:37-42 | submitting "Hello world" then "goodbye" without a key to the empty store yields the records 0 and 1 in that order |
| TextService.FirstCharNowhere | main.py:58 | a record does not match a query whose lower-cased first character is the lower-cased form of no character of the record's text |
| TextService.SearchExampleFound | main.py:52-66 | over the records "Hello world" and "goodbye", the query "HELLO" finds exactly the first record |
| TextService.SearchExampleNotFound | main.py:52-66 | over the records "Hello world" and "goodbye", the query "xyz" is NoMatch |
| TextService.TextService.constructor | main.py:8-9 | the service starts with both stores empty and satisfies the invariant |
| TextService.TextService.Create | main.py:16-48 | `create_texts` on the object's fields. It keeps the invariant, and its outcome and new state are those of `CreateStep`, so the lemmas above hold of it |
| TextService.TextService.Texts | main.py:52-66 | `texts`: a read-only loop over the records in order. Its answer is exactly `Search` of the stored records, so SearchSpec and the search lemmas hold of it |

## Left out

- HTTP plumbing. The decorators, the reading of the `Idempotency-Key` header, the parsing of the JSON body and the raising of `HTTPException` (main.py:1-2, 6, 11-12, 15, 51) are not modelled. The key arrives as an `Option<string>`, and each outcome is a datatype value with its status code.
- The error message strings, including the one that quotes the query (main.py:22, 26, 33, 54, 64), are not modelled. Each failure has a kind instead.
- Random ids. `uuid.uuid4()` (main.py:38) is replaced by a counter (`nextId`), and ids are natural numbers, not strings. Freshness is proved from the invariant, not taken from the randomness of UUIDs.
- Concurrency. The handlers run on a thread pool, so the lookup at main.py:30 and the binding at main.py:46 can race. The model is sequential: each `Create` runs to completion before the next begins.
- Strings.IsSpace: covers only Python's whitespace characters below 128 (tab, line feed, vertical tab, form feed, carriage return, 0x1C to 0x1F and space). It leaves out the non-ASCII Unicode whitespace that `str.strip()` also removes.
- Strings.LowerChar: lower-cases only the ASCII letters A to Z. It leaves out the rest of Unicode case mapping done by `str.lower()`, including mappings that change a string's length.
- Object identity. The ledger entry and the stored list share the same record object (main.py:42, 46). The model holds record values; since records are never mutated, nothing observable is lost.
- Body validation. Rejecting a request whose body has no `text` string is done before the handler runs, and is not modelled.
