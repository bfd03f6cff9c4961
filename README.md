# Mock reqres-style API server, modelled in Dafny

The server keeps two in-memory tables, users and resources, keyed by integer id, and a
counter that hands out ids to new users. Its handlers list a table page by page, fetch
one record, create, fully update, partially update and delete users, and answer
register and login requests with a fixed token. This project models that logic without
the web framework: a request body is a decoded JSON object, a handler returns a
`Response` (`Ok` payload, `BadRequest` with its message, `NotFound`, or `ServerError`
where Python would raise), and the current time is a string parameter.

Modules, one per component of `src/mock_api_server.py`:

- `Messages` — JSON values, request bodies, Python truthiness, `data.get` with and
  without a default, and the `Response` outcome type.
- `Decimal` — `str(n)` for the ids put into the create response, the default email
  and the avatar URL, with its inverse.
- `Names` — Python's `str.split()` (with `str.isspace()`'s whitespace set) and the
  rule that derives `first_name` and `last_name` from a full name.
- `Pagination` — `paginate`, with Python slice semantics for any page number.
- `Users` — the `UserStore` class: the `USERS` dictionary as a `map`, its insertion
  order as a `seq`, and `next_user_id`; the handlers that read and change it; `PATCH`.
  Two client methods use the class contracts: `SeededTableLacks999` replays the test
  suite's not-found request, and `CreateFetchDelete` is a create, fetch and delete
  sequence on one new user.
- `Resources` — the read-only resource table, its listing and lookup.
- `Auth` — register and login.

Where the code behaves differently from what the API is described to do, the model follows the code:

- A full update of a missing id always succeeds, but for a stored id the name is split,
  and a name that is not a string or has no token raises (a server error) before
  anything changes.
- Register and login reject a missing field and also any falsy one (empty string,
  `0`, `false`, `null`, empty list or object).
- A page below 1 is not rejected: page 0 is empty, and a negative page counts whole
  pages back from the end of the list (`NegativePageCountsFromEnd`), because Python
  slice bounds below 0 count from the end.
- Because create and update evaluate the name with different defaults (`"Unknown"` for
  the first name, `""` for the token count), an absent name gives first name
  `"Unknown"` and last name `""`.

## Model

| member | source | states |
|---|---|---|
| `Messages.Truthy` | src/mock_api_server.py:342 | a value is falsy (`not value` holds) exactly when it is null, false, 0, the empty string, the empty list or the empty object |
| `Decimal.NatToString` | src/mock_api_server.py:225 | `str(id)` is a non-empty string of decimal digits with no leading zero, one digit exactly for ids below 10 |
| `Decimal.ParseNatToString` | src/mock_api_server.py:225 | reading the decimal string back gives the id: the rendering loses nothing |
| `Decimal.NatToStringInjective` | src/mock_api_server.py:225 | different ids give different id strings |
| `Names.Split` | src/mock_api_server.py:233 | `split()` yields non-empty whitespace-free tokens, and yields none exactly when the string is all whitespace |
| `Names.SplitAfterSpace` | src/mock_api_server.py:233 | leading whitespace does not change the tokens |
| `Names.SplitJoin` | src/mock_api_server.py:233-238 | splitting words joined by single spaces gives the words back |
| `Names.SplitAfterSpaces` | src/mock_api_server.py:233 | any run of leading whitespace is ignored by `split()` |
| `Names.SplitBeforeSpaces` | src/mock_api_server.py:233 | any run of trailing whitespace is ignored by `split()` |
| `Names.SplitWordSpaces` | src/mock_api_server.py:233 | a word followed by any non-empty run of mixed whitespace is one token, and splitting continues after the run |
| `Names.SplitName` | src/mock_api_server.py:233-238 | the name rule fails exactly when the name is present and is not a string or has no token; an absent name gives `"Unknown"` and `""`; a present name gives its first `split()` token, and its last token when it has at least two, else `""`; a first name is one token, a last name is empty or one token |
| `Names.SplitNameOfWords` | src/mock_api_server.py:233-238 | a name of n >= 1 words joined by single spaces gives the first word, and the last word when n >= 2, else `""` |
| `Names.SplitNameIgnoresLeadingSpace` | src/mock_api_server.py:262-267 | whitespace before a name does not change the derived first and last names |
| `Names.SplitNameAdamMajcher` | src/mock_api_server.py:233-238 | the submitted name "Adam Majcher" gives first name "Adam" and last name "Majcher" |
| `Pagination.Paginate` | src/mock_api_server.py:152-166 | `page` and `per_page` are echoed, `total` is the number of items, a page never holds more than `per_page` items, and for page >= 1 the data is the items from (page-1)*per_page up to page*per_page, cut at the end of the list |
| `Pagination.TotalPages` | src/mock_api_server.py:155 | the page count lies between 0 and the number of items and is at least 1 when there are items; that it is the ceiling of total / per_page is `TotalPagesIsCeiling` |
| `Pagination.PageStart` | src/mock_api_server.py:157 | the first index of a page is non-negative for page >= 1; consecutive pages start per_page apart (`PageStartFacts`) |
| `Pagination.SliceBound` | src/mock_api_server.py:165 | a Python slice bound lands in 0..n: a non-negative bound is cut at n, a negative one counts from the end and is cut at 0 |
| `Pagination.Slice` | src/mock_api_server.py:165 | `items[start:end]` holds max(hi - lo, 0) items for the landed bounds lo and hi, and its i-th item is the item at lo + i |
| `Pagination.TotalPagesIsCeiling` | src/mock_api_server.py:155 | `total_pages` t satisfies (t-1)*per_page < total <= t*per_page, and is 0 exactly when there are no items |
| `Pagination.CeilingIsUnique` | src/mock_api_server.py:155 | any t within those bounds equals `total_pages`, so it is exactly the ceiling of total / per_page |
| `Pagination.PageInRange` | src/mock_api_server.py:157-165 | a page p >= 1 has data exactly when p <= total_pages, and then holds min(per_page, total - (p-1)*per_page) items |
| `Pagination.LastPageSize` | src/mock_api_server.py:152-166 | with at least one item the last page holds total % per_page items, or per_page when that remainder is 0 |
| `Pagination.PagesUpToIsPrefix` | src/mock_api_server.py:157-165 | pages 1..k concatenated are the first k*per_page items |
| `Pagination.PagesCoverItems` | src/mock_api_server.py:152-166 | pages 1..total_pages concatenated are exactly the item list, in order, so their sizes add up to total |
| `Pagination.PageZeroIsEmpty` | src/mock_api_server.py:157-165 | page 0 returns no data |
| `Pagination.NegativePageCountsFromEnd` | src/mock_api_server.py:157-165 | a negative page p returns the items between n+(p-1)*per_page and n+p*per_page, both clamped at 0 |
| `Users.Remove` | src/mock_api_server.py:289-290 | deleting a key removes exactly that key from the iteration order, leaves the order alone when the key is absent, and keeps an ascending order ascending |
| `Users.AscendingCard` | src/mock_api_server.py:154 | an ascending key order has as many distinct keys as entries, so the listing's length is the table's size |
| `Users.ValuesOfAppend` | src/mock_api_server.py:230 | inserting under a fresh key adds the record at the end of `USERS.values()` |
| `Users.NewUser` | src/mock_api_server.py:230-240 | the stored record carries the new id, the submitted email or else `user<id>@example.com`, the derived first and last names, and the avatar URL of that id |
| `Users.DefaultEmailInjective` | src/mock_api_server.py:232 | different ids get different default emails |
| `Users.AvatarUrlInjective` | src/mock_api_server.py:239 | different ids get different avatar URLs |
| `Users.InsertKeepsInvariant` | src/mock_api_server.py:229-242 | the counter is never a stored key, and storing under it and advancing it keeps the table invariant (keys ascending in insertion order, each record's id is its key, every key below the counter) |
| `Users.RenameKeepsInvariant` | src/mock_api_server.py:259-269 | renaming a stored user keeps the table invariant |
| `Users.RemoveKeepsInvariant` | src/mock_api_server.py:289-290 | deleting a key keeps the table invariant |
| `Users.TableSize` | src/mock_api_server.py:154 | under the table invariant the number of stored users equals the number of keys in the iteration order, so `total` counts every user once |
| `Users.UserStore.Values` | src/mock_api_server.py:153 | `list(USERS.values())` lists one record per stored user, the i-th being the record stored under the i-th key of the insertion order, whose own id is that key |
| `Users.ListedAreStored` | src/mock_api_server.py:172-190 | every record on any page of the user listing is the record stored under its own id |
| `Users.PatchUser` | src/mock_api_server.py:274-282 | a partial update always succeeds and returns the submitted fields plus `updatedAt` set to the timestamp, other fields unchanged; it takes no table and so changes none |
| `Users.UserStore.constructor` | src/mock_api_server.py:16-101 | the server starts with the twelve seed users under ids 1..12 in that order and the counter at 13, satisfying the table invariant |
| `Users.UserStore.GetUser` | src/mock_api_server.py:193-212 | a stored id gives its record, whose own id is the requested one; any other id gives not-found |
| `Users.UserStore.ListUsers` | src/mock_api_server.py:172-190 | the user listing is `paginate` over `list(USERS.values())` with six per page, so `Paginate`'s page count, slice, coverage and last-page lemmas apply to it; its total is the number of stored users, and every listed record is the one stored under its id |
| `Users.UserStore.Create` | src/mock_api_server.py:215-244 | an unsplittable name raises and changes nothing; otherwise the record is stored under the old counter, which was not a key, the counter advances by 1, the response echoes name and job with the new id as a string and the timestamp, the new record is fetched under that id and appears last in the listing |
| `Users.UserStore.Update` | src/mock_api_server.py:247-271 | a missing id succeeds and changes nothing; a stored id with an unsplittable name raises and changes nothing; otherwise only that record's first and last names change (id, email, avatar and every other record stay) and the response echoes name, job and timestamp |
| `Users.UserStore.Delete` | src/mock_api_server.py:285-292 | always succeeds; removes exactly the given key from table and order, changes nothing for a missing key (so deleting twice is deleting once), and the id is not found afterwards |
| `Users.ListingVisitsEachUserOnce` | src/mock_api_server.py:152-166 | walking the user listing pages 1..total_pages yields every stored user once, in ascending id order, so no id repeats |
| `Resources.GetResource` | src/mock_api_server.py:312-331 | ids 1..6 give the resource with that id, any other id gives not-found |
| `Resources.ListResources` | src/mock_api_server.py:298-309 | the six resources fit on one page: page 1 holds all of them in order, every other page (0, negative, or above 1) is empty, total is 6 and total_pages is 1 |
| `Auth.Register` | src/mock_api_server.py:337-351 | registration succeeds exactly when email and password are both truthy and the email is one of the two allowed addresses, returning id 4 and the fixed token; a missing field and a non-allowed email give their two distinct messages |
| `Auth.Login` | src/mock_api_server.py:354-363 | login succeeds exactly when email and password are both truthy, returning the fixed token; otherwise it gives the missing-field message |
| `Auth.RegisteredCanLogIn` | src/mock_api_server.py:342-363 | a body that registers also logs in, with the same token |
| `Auth.LoginWiderThanRegister` | src/mock_api_server.py:342-363 | a body that logs in with an address off the allow-list is refused registration with the allow-list message |
| `Auth.RegisterEve` | src/mock_api_server.py:342-351 | eve.holt@reqres.in with a password registers as id 4 with the fixed token |
| `Auth.RegisterWithoutPassword` | src/mock_api_server.py:342-343 | an email without a password is refused with the missing-field message |

## Left out

- Flask routing, `jsonify`, HTTP status codes, the `support` blocks and the `home` documentation endpoint: handlers return a `Response` value instead.
- The `health` endpoint: it only reports the sizes of the two tables.
- `time.sleep(delay)` in the user listing: wall-clock blocking with no effect on the response.
- `datetime.utcnow()`: the timestamp is the `now` parameter.
- Parsing of the `page` and `delay` query parameters with `int(...)` and its `ValueError`: `page` arrives as an integer.
- Request bodies that are not JSON objects (`get_json()` returning a list or None) and JSON floating-point numbers: a body is a `map<string, Json>` with integer numbers only.
- Pagination.Paginate: requires `per_page >= 1`; every caller passes 6, and 0 would divide by zero.
- Decimal.NatToString: renders non-negative numbers only; ids start at 13 and only grow.
- Unicode beyond whitespace: Python's whitespace set is written out as code points in `Names.IsSpace`; no other Unicode processing is modelled.
- In-place mutation of the shared record object by `.update`: the model replaces the map entry, which is equivalent because only the table holds the record.
- `tests/test_users.py` and `src/conftest.py`: black-box HTTP tests and fixtures; their asserted properties appear as lemmas above.
- Concurrency: the server handles one request at a time.
