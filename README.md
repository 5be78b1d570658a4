# Business-card extraction and prospect table, in Dafny

This project models two parts of a business-card scanning service.

The first is the rule-based field extraction in `extract.py`. It turns the
text read off a card into candidates for each field:

- emails, websites and social-media handles come from regular expressions;
- phone numbers come from a regular expression plus a plausibility filter;
- the agent and company names come from the first PERSON and ORG named
  entities;
- the address is the regex and location-entity candidates, minus bare
  country names.

An arbiter (`restructure_extracted_text_to_json`) then folds the candidates
into an eight-field record.

The second is the prospect table in `crud/prospect_crud.py`, a table keyed by
lead serial number. It has lookup, paging, create (refusing duplicates with
400), partial update (404 when absent) and delete (404 when absent).

Files:

- `seqs.dfy` (module `Seqs`): `Option`; `list(set(xs))` as a duplicate-free
  listing of the same members; `", ".join`.
- `regex.dfy` (module `Regex`): the fragment of Python's `re` that the email,
  website and social patterns use. It covers literal characters, `.`, `[...]+`
  runs, alternation and `re.IGNORECASE`. `re.findall` is a left-to-right scan
  for non-overlapping matches. It is proved sound against a declarative
  language of each pattern, and its first result is proved to be the leftmost
  match.
- `extract.dfy` (module `Extract`): each extractor and the arbiter. The
  pure functions are Dafny functions. The source's loops are methods whose
  loop invariants tie them to those functions.
- `prospect_crud.dfy` (module `ProspectCrud`): the table is a class
  `ProspectStore`. It holds the rows as a map from serial number to prospect,
  plus the order in which a full scan lists them. The `setattr` loop of
  `update_prospect` is proved equal to a field-wise update.

Collaborators outside the core are parameters:

- the spaCy entities (`seq<Entity>` in document order);
- the GeoText cities and countries (two sequences);
- the raw `re.findall` results of the phone and address patterns.

## Model

| member | source | states |
|---|---|---|
| Seqs.Dedup | extract.py:18 | `list(set(xs))` has no duplicates, holds every element of `xs` and nothing else, and is never longer than `xs` |
| Seqs.JoinContainsEach | extract.py:141 | every piece joined with `", "` can be found as a substring of the joined string |
| Regex.RunEnd | extract.py:16 | a `[...]+` run stops at the end of the text or at the first character outside its class, and every character it consumes is in the class |
| Regex.RunEndAt | extract.py:54 | a run that reaches a character outside its class (or the end) ends exactly there |
| Regex.FindAllSound | extract.py:17 | every string `re.findall` returns is a word of the pattern's language and a substring of the text |
| Regex.FirstOfFindAll | extract.py:105-107 | the first string `re.findall` returns is the leftmost match; the result is empty exactly when the pattern matches at no position |
| Regex.FindAllReaches | extract.py:55 | a match at position `i` is returned when no match starting earlier overlaps `i` |
| Extract.AcceptedEmailIsShaped | extract.py:16 | every word of the email pattern is a non-empty local part of `[a-zA-Z0-9_.+-]`, `@`, a non-empty label of `[a-zA-Z0-9-]`, `.`, and a non-empty tail of `[a-zA-Z0-9-.]` |
| Extract.ExtractEmails | extract.py:12-18 | the result has no duplicates, every element is email-shaped and occurs in the text, and its members are exactly the strings `re.findall` finds |
| Extract.EmailMatchAt | extract.py:16 | at an email-shaped token whose tail is not followed by another tail character, the email pattern matches exactly that token |
| Extract.EmailTokenFound | extract.py:16-18 | an email-shaped token at the start of the text or after whitespace, not followed by another tail character, is returned whole |
| Extract.PlausiblePhones | extract.py:37-43 | a raw match is kept exactly when it has at least 7 characters and either the text contains a context word (Tel, Mobile, Phone, Contact, Cell, any case, between word boundaries) or the match starts with `+`, `n` or `0` |
| Extract.ExtractPhoneNumbers | extract.py:37-45 | the loop computes the deduplicated plausible matches: no duplicates, and a raw match is in the result exactly when it passes the plausibility test |
| Extract.AcceptedWebsiteIsShaped | extract.py:54 | every word of the website pattern starts with `http://`, `https://` or `www.`, has at least one character after that prefix, and holds no whitespace |
| Extract.ExtractWebsites | extract.py:50-56 | the result has no duplicates, every element is URL-shaped and occurs in the text, and its members are exactly the strings `re.findall` finds |
| Extract.HttpsMatchAt | extract.py:54 | at `https://` followed by a non-space, the website pattern matches up to the next whitespace |
| Extract.HttpMatchAt | extract.py:54 | at `http://` followed by a non-space, the website pattern matches up to the next whitespace (the `https://` alternative fails at the `:`) |
| Extract.WwwMatchAt | extract.py:54 | at a `www.` followed by a non-space, the website pattern matches up to the next whitespace |
| Extract.WebsiteTokenFound | extract.py:54-56 | a token starting with `http://`, `https://` or `www.` and a non-space, at the start of the text or after whitespace, is returned whole, up to the next whitespace |
| Extract.TextsWithLabels | extract.py:70-74 | the collected texts are exactly the texts of the entities whose label is one of those asked for: each collected text comes from such an entity, every such entity's text is collected, and there are no more of them than entities |
| Extract.FirstTextIsFirstEntity | extract.py:76-79 | `names[0] if names else None` is the text of the first entity with the label in document order, and None exactly when no entity has it |
| Extract.ExtractEntities | extract.py:61-81 | the agent name is the first PERSON entity and the company name the first ORG entity, each None when there is no such entity |
| Extract.FirstFoundIsFirstMatch | extract.py:105-107 | `match[0] if match else None` is the leftmost match of the pattern, or None when it matches nowhere |
| Extract.ExtractSocialMedia | extract.py:86-109 | the dictionary has exactly the keys facebook, instagram and twitter, and each holds the leftmost case-insensitive match of its pattern, or None |
| Extract.DropStopCountries | extract.py:139 | a candidate is kept exactly when its lower-cased form is not kenya, uganda or tanzania; a duplicate-free list stays duplicate-free |
| Extract.AddressParts | extract.py:130-139 | the final address parts are duplicate-free, and are exactly the regex or GPE/LOC/FAC entity candidates that are not a bare stop-listed country |
| Extract.ExtractAddress | extract.py:114-141 | None exactly when every candidate is a bare stop-listed country; otherwise the kept parts joined with `", "`, in which every kept candidate can be read |
| Extract.BuildRecord | extract.py:194-203 | for any listing of the candidate sets: industry is None and the organization is the company name; every other field is None exactly when its candidates are empty (the other phone: fewer than two), and otherwise one of its candidates; distinct phones never fill both phone fields with the same number |
| Extract.RestructureExtractedText | extract.py:164-203 | the record built from the five extractors the source calls (emails, phone numbers, websites, entities, address; the social-media extractor is not run, as in the source): the organization is the first ORG entity, the primary phone is None exactly when no raw phone match is plausible, the other phone differs from the primary one, the email is email-shaped and the website URL-shaped |
| Extract.EmailExample | extract.py:16-18 | `a.b+c@sub.example.co` is found in "contact: a.b+c@sub.example.co / ignore" |
| Extract.WebsiteExample | extract.py:54-56 | `www.abccorp.com` is found in "Visit www.abccorp.com today" |
| Extract.PhoneExample | extract.py:39-43 | "random 0720953165 noise" holds no context word, and `0720953165` is still kept because it starts with `0` |
| Extract.AddressExample | extract.py:139-141 | a bare "Kenya" gives no address; "1234 Some Avenue, Nairobi, Kenya" is kept whole |
| ProspectCrud.Patched | crud/prospect_crud.py:41-42 | `is_won`, `end_date` and `points` are each overwritten exactly when sent with a non-null value; every other field keeps its value |
| ProspectCrud.ApplyAllAppend | crud/prospect_crud.py:41 | running the update loop over two lists of items in turn is the same as running it over their concatenation |
| ProspectCrud.ApplyAllSetFields | crud/prospect_crud.py:41-42 | the `setattr` loop over `updates.dict(exclude_unset=True)` gives the field-wise update |
| ProspectCrud.PatchedIdempotent | crud/prospect_crud.py:41-42 | sending the same update twice leaves the prospect as sending it once |
| ProspectCrud.PatchedNullsChangeNothing | crud/prospect_crud.py:42 | an update whose fields are all left out or null changes nothing |
| ProspectCrud.ProspectStore.GetProspect | crud/prospect_crud.py:6-10 | the row stored under the serial number, which carries that serial number, or None exactly when there is none |
| ProspectCrud.ProspectStore.GetProspects | crud/prospect_crud.py:12-16 | at most `limit` rows, those of the scan after the first `skip`, each a stored row and no serial number twice |
| ProspectCrud.ProspectStore.OrderCountsRows | crud/prospect_crud.py:16 | the scan lists exactly as many rows as the table holds |
| ProspectCrud.ProspectStore.PagesConcatenate | crud/prospect_crud.py:16 | two consecutive pages read the same rows as one page covering both |
| ProspectCrud.ProspectStore.FullPageListsEveryRow | crud/prospect_crud.py:16 | a page from 0 at least as long as the table lists every stored row |
| ProspectCrud.ProspectStore.CreateProspect | crud/prospect_crud.py:18-30 | a present serial number gives error 400 and changes nothing; otherwise the row is added under its serial number, returned, and every other row is unchanged |
| ProspectCrud.ProspectStore.UpdateProspect | crud/prospect_crud.py:33-45 | an absent serial number gives error 404 and changes nothing; otherwise that row becomes its field-wise update, which is returned, and every other row is unchanged |
| ProspectCrud.ProspectStore.DeleteProspect | crud/prospect_crud.py:47-57 | an absent serial number gives error 404 and changes nothing; otherwise that row is gone, the others are unchanged, and the result is True |

## Left out

- OCR (`extract_text_from_image`, extract.py:146-158) is not modelled. It calls PaddleOCR; the model starts from the text.
- spaCy's entity recognizer and GeoText's place lookup are foreign code. Their output is a parameter of the model.
- The phone pattern (extract.py:31-35) and the address pattern (extract.py:120-128) are not modelled. They rely on backtracking, bounded repetition and `\b`, which the regex fragment does not cover. What `re.findall` returns for them is a parameter.
- `list(set(...))` has no defined order in Python. The model lists first occurrences in order, so in the model the primary phone is the first plausible raw match and the email and website are the first ones found. The order-free clauses of ExtractEmails, ExtractWebsites, ExtractPhoneNumbers and AddressParts, and all of BuildRecord's, hold for any listing; the clauses that tie a result to `Dedup` (`phones == PhoneNumbers(...)`, `rec == BuildRecord(...)`) fix that one listing, which Python does not promise.
- Extract.RestructureExtractedText: the city and country are the first of the GeoText lists as given. They are not ordered further, because Python sets have no order.
- `re.IGNORECASE`, `\b` and `\w` are modelled for ASCII only. Python also folds the case of non-ASCII letters (e.g. the Kelvin sign matches `k`) and counts non-ASCII letters as word characters.
- `str.lower()` in the stop-country filter is modelled for ASCII letters only.
- The address in `restructure_extracted_text_to_json` is computed and then dropped (extract.py:181). The model computes it and drops it too.
- The LLM path (extract_usin_llm.py), the HTTP routers, the schemas beyond the update fields, `main.py` and `crud/user_crud.py` are not part of this model.
- The database session is not modelled: commit, refresh, transactions and concurrent writers. The table is an in-memory map.
- Extract.RestructureExtractedText: spaCy runs twice in the source (for entities and for the address); the model passes the same entity list to both, which holds when spaCy is deterministic.
- ProspectCrud.ProspectStore.GetProspects: the defaults `skip=0` and `limit=100` of `get_prospects` are not modelled; callers pass both. `skip` and `limit` are natural numbers. What SQL does with negative values depends on the database engine. The scan order is the order in which rows were created, minus deleted ones; SQL gives no order without `ORDER BY`.
- ProspectCrud.ProspectStore.UpdateProspect: the source updates the ORM object in place, and callers holding it see the change. The model stores a new value in the map and returns it, so aliasing is not captured.
- `datetime` values are integers (`Timestamp`), since only their identity matters here.
