# Blog listing router — a Dafny model

This project models the core of the `routes/blog.js` Express router of a
listing-style "blog" application. Each listing has a name, image,
description, cost, author snapshot, geocoded location and a list of
comment references. Three parts of the router are modelled and proved:

- **`escapeRegex`**: the helper that makes a search term safe to compile
  into a regular expression. It puts a backslash before every character of
  `- [ ] { } ( ) * + ? . , \ ^ $ | #` and before every whitespace character,
  in one left-to-right pass. Module `Escape` (`escape.dfy`) defines it as a
  recursive function. It proves the per-character mapping, the output
  length, that escaping distributes over concatenation, and that the output
  reads back as the term. `Unescape` is that inverse: it returns `None`
  exactly when the text is not an escaped literal. Escaping and unescaping
  form a bijection, so `escapeRegex` is injective.
- **The INDEX route (GET "/")**: module `Index` (`index.dfy`). Given the
  request (search parameter, script-request flag) and the listing
  collection (one sequence of records, plus whether a find succeeds), it
  decides which query goes to the store and which response is produced.
  Every find is modelled as a filter of that one sequence; the order this
  gives is an assumption of the model (see "## Left out").
  The regular-expression engine is a parameter
  `matches: (Pattern, string) -> bool`.
- **The write routes (POST "/", PUT "/:id", DELETE "/:id")**: module `Store`
  (`store.dfy`). Class `BlogStore` holds a listing map and a comment map.
  `Create`, `Update` and `Delete` state the complete new state, every
  outcome, and whether the reference invariants survive; the two DELETE
  steps `RemoveComments` and `RemoveBlog` state only their new map. The invariants are that every
  referenced comment exists and that no comment belongs to two listings.
  Pure functions and lemmas beside the class carry the substance: the
  `$set` record, the created record, the geocode guard, and the cascade's
  effect on the invariants.

`models.dfy` holds the records (`Blog`, `Comment`, `Author`, `User`, `Form`,
`Place`, `Geocode`) and `wrappers.dfy` holds `Option`.

Modelling decisions:

- Whitespace follows what `\s` matches in JavaScript: the WhiteSpace and
  LineTerminator code points of ECMAScript. Dafny characters are Unicode
  scalar values. Every such whitespace character lies in the Basic
  Multilingual Plane, so working per code point instead of per UTF-16 unit
  makes no difference to which characters are escaped.
- The search parameter is truthy when it is present and not `""`. An
  array-valued query parameter is not modelled.
- Store failures, geocoding replies and newly generated ids are parameters
  of the operations (`reachable`, `saveOk`, `dbOk`, `commentsOk`, `blogOk`,
  `geo`, `newId`, and the `ok` of the two DELETE steps). A fresh id is a
  precondition of `Create`, because the store generates one.
- On a store error INDEX only logs and sends no response, even for script
  requests (routes/blog.js:20-21, 29-30): `NoResponse`.
- CREATE checks only `err` and the status `"ZERO_RESULTS"`. A reply with
  any other status and no matches leaves `data.results[0]` undefined, and
  reading `.geometry` from it (routes/blog.js:58) throws before anything is
  stored. The model gives this outcome as `CreateCrashed`, with
  the store unchanged.
- PUT reads `data.results[0]` without checking the reply, so a usable
  reply is its precondition. When no listing has the id, the update
  changes nothing and the callback then throws on `blog._id`. The model
  gives this as `UpdateCrashed`, with the store unchanged.
- `lat` and `lng` are copied without being inspected, so they are modelled
  as an opaque `Coordinate` value.

## Model

| member | source | states |
|---|---|---|
| `Escape.IsPunctuationSpecial` | routes/blog.js:11 | the seventeen listed characters of the class; all are ASCII |
| `Escape.IsWhitespace` | routes/blog.js:11 | the characters `\s` matches (ECMAScript WhiteSpace and LineTerminator); all lie in the Basic Multilingual Plane and none is in the punctuation list |
| `Escape.IsSpecial` | routes/blog.js:11 | the whole class: punctuation list or whitespace; letters, digits and `_` are never in it |
| `Escape.EscapeChar` | routes/blog.js:11 | a special character becomes a backslash followed by itself (two characters); any other character stays itself (one character) |
| `Escape.EscapeRegex` | routes/blog.js:10-12 | output is at least as long as the input and at most twice as long |
| `Escape.EscapeEmpty` | routes/blog.js:11 | the empty term escapes to the empty string |
| `Escape.EscapeLength` | routes/blog.js:11 | output length = input length + number of special characters in the input |
| `Escape.EscapeConcat` | routes/blog.js:11 | single global pass: escaping a + b gives escape(a) + escape(b), so inserted backslashes are never rescanned |
| `Escape.EscapeAt` | routes/blog.js:11 | each input character maps to its own image between the images of its prefix and suffix; a special one appears at its shifted position as backslash then itself, any other one appears unchanged |
| `Escape.EscapeFixedIff` | routes/blog.js:11 | a term is left unchanged if and only if it contains no special character |
| `Escape.UnescapeEscape` | routes/blog.js:11 | reading the escaped text back (drop each backslash before a special character) gives exactly the original term |
| `Escape.EscapeUnescape` | routes/blog.js:11 | any text that reads back as a literal term is precisely the escape of that term |
| `Escape.EscapeInjective` | routes/blog.js:11 | different terms give different patterns |
| `Escape.EscapeBackslashDot` | routes/blog.js:11 | the term backslash-dot becomes backslash-backslash-backslash-dot: each input backslash is doubled once and no more |
| `Index.IndexQuery` | routes/blog.js:16-17 | a name pattern is used if and only if the term is truthy and the request is a script request; its source reads back as the term and its flags are "gi" |
| `Index.Truthy` | routes/blog.js:16 | the `req.query.search` test: present and not the empty string |
| `Index.Selects` | routes/blog.js:19-28 | the `{name: regex}` filter passes a record when the engine matches its name; the `{}` filter passes every record |
| `Index.Find` | routes/blog.js:19 | the store's find returns exactly the records passing the query, each as many times as it is stored and no other record; match-all returns every record; the result is taken as a subsequence of the one modelled record sequence |
| `Index.FindUnique` | routes/blog.js:19 | those properties determine the result: any subsequence of the records with the same multiplicities is Find's result |
| `Index.IndexHandler` | routes/blog.js:15-40 | a store error gives no response on every branch; term plus script request gives status 200 JSON of the store's find result as it is: the matching records, each as often as stored, with the escaped pattern and flags "gi"; a script request without a term gives JSON of all records; a browser request renders "blogs/index" with all records and page "blogs", even when a term was supplied |
| `Index.BrowserIgnoresSearch` | routes/blog.js:26-36 | for browser requests the outcome does not depend on the search term |
| `Index.ScriptAndBrowserAgreeWithoutTerm` | routes/blog.js:28-36 | without a term, the script and browser responses carry the same listings |
| `Store.WithoutComments` | routes/blog.js:122-126 | the `$in` removal deletes exactly the listed comment ids and keeps every other comment unchanged |
| `Store.Edited` | routes/blog.js:103-108 | the `$set` changes only name, image, description, cost, location, lat and lng; location, lat and lng come from one geocoding match; author and comments are kept |
| `Store.NewBlog` | routes/blog.js:45-61 | the created record has author {id, username} of the current user and no comments, and its other fields are the ones an edit with the same form and match would set |
| `Store.ReadGeocode` | routes/blog.js:53-60 | an error or "ZERO_RESULTS" rejects the address; another reply without matches throws when reading `.geometry` of the undefined `results[0]`; otherwise the first match is used |
| `Store.EditedAgreeIff` | routes/blog.js:107-108 | two listings edited with the same form and match become equal if and only if they share author and comments |
| `Store.EditKeepsRefs` | routes/blog.js:108 | an edit keeps "all referenced comments exist" and "no shared comments" |
| `Store.AddKeepsRefs` | routes/blog.js:61-63 | adding a comment-less listing under a new id keeps both reference invariants |
| `Store.CascadeKeepsRefs` | routes/blog.js:121-131 | removing a listing's comments and then the listing keeps both reference invariants |
| `Store.HalfCascadeBreaksRefs` | routes/blog.js:126-134 | if the comments are removed and removing the listing then fails, the listing left behind refers to a missing comment |
| `Store.BlogStore.Create` | routes/blog.js:43-73 | the store is unchanged on a rejected address, a crash on missing matches or a failed insert; otherwise it gains exactly one record, under the new id, built by `NewBlog`; comments untouched; invariants preserved |
| `Store.BlogStore.Update` | routes/blog.js:102-118 | on a store error or a missing id nothing changes; otherwise only that listing is replaced by its `Edited` version; comments untouched; invariants preserved |
| `Store.BlogStore.RemoveComments` | routes/blog.js:122-126 | first DELETE step: on success the comment map loses exactly the referenced ids |
| `Store.BlogStore.RemoveBlog` | routes/blog.js:131 | second DELETE step: on success the listing map loses exactly that id |
| `Store.BlogStore.Delete` | routes/blog.js:121-141 | comments go first; if that fails nothing changes; the listing goes only if that succeeded; other listings and unreferenced comments are unchanged; invariants preserved unless the second step fails, and then broken whenever the listing had comments |

## Left out

- HTTP plumbing: router registration, `res.render`, `res.json`, `res.redirect`, flash messages and logging. Only the kind of response chosen is modelled, and only for INDEX.
- Middleware (`isLoggedIn`, `checkUserBlog`, `isSafe`, `isAdmin`): the `../middleware` module is not part of this model. For DELETE, its result `req.blog` becomes the precondition that the id is in the store.
- The NEW, SHOW and EDIT routes (routes/blog.js:76-99): they read and render only and have no behaviour beyond the store's lookup.
- The regular-expression engine and case-insensitive matching stay abstract, behind the `matches` parameter, so no statement about which names a term matches is proved. What is proved is that the compiled pattern's source reads back as exactly the search term (`Index.IndexQuery`, `Escape.UnescapeEscape`).
- The geocoding service and the document store are foreign calls. Their results are parameters, and their internals are not modelled: ObjectId generation, casting of `cost`, partial failure of a multi-document removal.
- Asynchronous callbacks: the two DELETE steps and the geocode-then-store steps are sequenced explicitly.
- Floating-point coordinates: copied as opaque values.
- Comments are created and edited by routes outside this model. The model treats the comment map as given and never adds to it.
- `Index.Find`: the store's result order is modelled as the single sequence `records`, and every find as a filter that keeps that order. The real store promises no order without a sort, and `find({name: regex})` and `find({})` are separate queries, so the order of the filtered answer relative to the unfiltered one (the subsequence clauses of `Index.Find` and `Index.IndexHandler`) is an assumption of the model, not a promise of the router.
- `Store.BlogStore.Update`: its precondition that the geocoding reply has at least one match replaces the crash that the unchecked `data.results[0]` would cause on a failed lookup.
