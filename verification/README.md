# Restaurant recommendations: query parser and matcher

A Dafny model of the recommendation core of a small restaurant-lookup web
service (`app.py`). A free-text query such as
`vegetarian italian open 18:00 close 22:00` is lower-cased and split into
words. Each word is classified in one left-to-right pass into criteria: a
map from record field to required value. The criteria become a conjunctive
field-equality filter over the stored restaurant records. Matches are cut
down to six summary fields. The model also covers the required-field check
that guards restaurant creation.

Modules:

- `Wrappers` (`wrappers.dfy`): `Option`.
- `Text` (`text.dfy`): the Python string operations the parser relies on.
  These are `str.lower()`, `str.split()` with no separator, `" ".join` and
  substring `in`, each with its defining property.
- `Parser` (`parser.dfy`): `parse_criteria`. `BindingAt` is the loop body:
  what word `i` sets, if anything. `ApplyAll` applies a sequence of such
  bindings in order to the empty map, and `ParseWords` applies the bindings
  of every word. `ParseCriteria` is the whole function. The lemmas state
  last-write-wins and its consequences for each key.
- `Scenarios` (`scenarios.dfy`): two worked queries. `mexican chinese` is
  stated on the query string; the longer query is stated on its words, and
  `Parser.ParseOfJoin` carries such a result from the words of a
  lower-case, single-spaced query to the query string itself.
- `Restaurants` (`restaurants.dfy`): the store as a sequence of records.
  It holds `get_recommendations`: the query and criteria guards, then
  `Lookup`, which filters the store, answers not-found and projects the
  matches. It also holds `create_restaurant`: the authorisation flag, the
  required fields and the append.

The address is captured from the word holding the street marker to the end
of the query (app.py:271-273), so
`vegetarian italian open 18:00 close 22:00 123 main street` gives the
address `street`; `Scenarios.FullQuery` proves it.

## Model

| member | source | states |
|---|---|---|
| Text.IsSpace | app.py:252 | The whitespace set of `str.split()` with no separator: tab through carriage return, the four information separators (U+001C to U+001F), space, NEL, NBSP, the Unicode space separators, and the line and paragraph separators U+2028 and U+2029. |
| Text.Lower | app.py:252 | Lower-casing keeps the length, maps each character through the ASCII lower-case mapping, and leaves no ASCII upper-case letter. |
| Text.LowerIdempotent | app.py:252 | Lower-casing an already lower-cased query changes nothing. |
| Text.WordEnd | app.py:252 | Gives the length of the longest whitespace-free prefix: everything before it is non-space, and it ends at the end of the string or at a whitespace character. |
| Text.Split | app.py:252 | Every word that `split()` yields is non-empty and contains no whitespace character. |
| Text.SplitSkipsBlank | app.py:252 | Leading whitespace does not change the words `split()` yields. |
| Text.SplitSpaced | app.py:252 | Words surrounded and separated by any whitespace (tabs, runs of spaces, leading and trailing blanks, at least one character between two words) split back into exactly those words, in order. |
| Text.SplitDecomposes | app.py:252 | Every string is its `split()` words, in order, with whitespace around them and non-empty whitespace between them; with `SplitSpaced` the words are exactly the maximal whitespace-free runs. |
| Text.SplitJoin | app.py:252 | Splitting words joined by single spaces gives back exactly those words (split is the inverse of join on words). |
| Text.SplitEmptyIffBlank | app.py:252 | A query splits into no words exactly when every character is whitespace. |
| Text.Join | app.py:272 | `" ".join`: the words with one space between consecutive words; `SplitJoin` is its partner. |
| Text.Contains | app.py:271 | Python's substring test `t in s`; `ContainsIffOccurs` relates it to occurrence at a position. |
| Text.ContainsIffOccurs | app.py:271 | The substring test `t in s` holds exactly when `t` occurs at some position of `s`. |
| Text.LowerJoin | app.py:252 | Joining words that are already lower-case gives a lower-case string. |
| Text.LowerWordsEach | app.py:252 | The recursive "every word is a lower-case token" condition holds exactly when each word is a non-empty, whitespace-free, lower-case string. |
| Text.JoinLowerWords | app.py:252 | A query made of lower-case tokens joined by single spaces is unchanged by `lower()` and splits back into those tokens. |
| Parser.OptionKeys | app.py:237-242 | The four dietary keywords `glutenfree`, `vegetarian`, `vegan` and `dairyfree`, mapped to the record fields `glutenFree`, `vegetarian`, `vegan` and `dairyFree`. |
| Parser.StyleNames | app.py:244-249 | The four cuisine keywords `mexican`, `italian`, `mediterranean` and `chinese`, mapped to their capitalised styles. |
| Parser.TimedAt | app.py:262-264 | An hour keyword counts only when a next word exists and that word contains `:`. The same test is at lines 267-269 for `close`. |
| Parser.IsAddressTrigger | app.py:271 | A word starts an address when `street`, `avenue` or `boulevard` occurs anywhere inside it. |
| Parser.BindingAt | app.py:254-273 | A word binds at most one key, and that key is one of the nine criteria keys. |
| Parser.NoBindingIff | app.py:254-273 | A word sets nothing exactly when it is neither a keyword nor an address word, or when it is `open`/`close` without a following word containing `:`. |
| Parser.ApplyAll | app.py:254-275 | Applying bindings in order to the empty map yields a key exactly when some binding sets it. |
| Parser.ApplyAllLastWins | app.py:254-275 | A key set by some binding and by no later one holds that binding's value after all bindings are applied. |
| Parser.ApplyAllSingleValue | app.py:254-275 | A key that every binding setting it sets to the same value holds that value. |
| Parser.ParseWords | app.py:254-275 | The criteria built from any word sequence have their keys among {glutenFree, vegetarian, vegan, dairyFree, style, delivery, openHour, closeHour, address}. |
| Parser.ParseCriteria | app.py:234-275 | Every key of the parsed criteria is one of the nine criteria keys. |
| Parser.LastWins | app.py:254-275 | Over the whole query, a key is present exactly when some word binds it, and it holds the value of the last word that does (last write wins). |
| Parser.KeywordIsNotAddressTrigger | app.py:255-271 | No keyword contains `street`, `avenue` or `boulevard`, so the earlier branches never shadow an address word. |
| Parser.BindsAddressIff | app.py:271-273 | A word binds `address` exactly when it contains a street marker, and the value is the join of the words from it to the end. |
| Parser.FlagBindingIsTrue | app.py:255-260 | A word that binds a dietary key or `delivery` binds it to the string `"true"`. |
| Parser.FlagsHoldTrue | app.py:255-260 | A dietary key or `delivery`, once present in the parsed criteria, holds the string `"true"`. |
| Parser.FlagKeywordSetsTrue | app.py:237-260 | Any dietary keyword or `delivery` in the query sets its mapped key (`glutenFree`, `vegetarian`, `vegan`, `dairyFree`, `delivery`) to `"true"`. |
| Parser.BindsStyleIff | app.py:257-258 | A word binds `style` exactly when it is a cuisine keyword, and then to that cuisine's capitalised name. |
| Parser.BindsFlagIff | app.py:255-260 | A word binds a dietary key or `delivery` exactly when it is that key's keyword. |
| Parser.FlagPresentIff | app.py:255-260 | A dietary key or `delivery` is present exactly when its keyword occurs in the query. |
| Parser.StyleIsLastCuisine | app.py:244-258 | `style` is present exactly when a cuisine keyword occurs, and it equals the capitalised form of the last one. |
| Parser.BindsHourIff | app.py:261-270 | A word binds `openHour` (`closeHour`) exactly when it is `open` (`close`) and the next word contains `:`, and then to that next word. |
| Parser.HourIsLastTimedKeyword | app.py:261-270 | `openHour` (`closeHour`) is present exactly when some `open` (`close`) is followed by a word containing `:`. It equals the word after the last such occurrence; an occurrence without a time changes nothing. |
| Parser.AddressIsLastTriggerSuffix | app.py:271-273 | `address` is present exactly when some word contains a street marker. It equals the space-join of the words from the last such word to the end. |
| Parser.EmptyIffNothingBinds | app.py:254-275 | The criteria are empty exactly when no word binds anything. |
| Parser.UnrecognisedWordsParseEmpty | app.py:254-275 | A query whose words are neither keywords nor address words parses to the empty map. |
| Parser.ParseIgnoresCase | app.py:252 | Parsing a query and parsing its lower-cased form give the same criteria. |
| Parser.ParseOfJoin | app.py:252 | A lower-case query of single-spaced words parses exactly like the sequence of its words. |
| Scenarios.TwoCuisines | app.py:257-258 | `mexican chinese` gives exactly `{style: Chinese}`. |
| Scenarios.TwoCuisinesWords | app.py:252 | `mexican chinese` is the single-space join of its two lower-case words. |
| Scenarios.TwoCuisinesQuery | app.py:234-275 | The query string `mexican chinese` parses to exactly `{style: Chinese}`. |
| Scenarios.FullQueryBindings | app.py:254-273 | The nine words bind, in order: vegetarian, style Italian, openHour 18:00, nothing, closeHour 22:00, nothing, nothing, nothing, address `street`. |
| Scenarios.FoldFullQuery | app.py:254-275 | Applying those nine bindings gives the five-entry criteria, since no binding overwrites another. |
| Scenarios.FullQuery | app.py:254-273 | The words of `vegetarian italian open 18:00 close 22:00 123 main street` give exactly {vegetarian: true, style: Italian, openHour: 18:00, closeHour: 22:00, address: street}. |
| Restaurants.HasQuery | app.py:169-171 | The `q` parameter counts as given only when present and non-empty. |
| Restaurants.HasSummaryFields | app.py:153 | A body or record has all six fields `name`, `style`, `address`, `openHour`, `closeHour` and `vegetarian`. This is also exactly when the projection at lines 189-196 raises no KeyError. |
| Restaurants.Satisfies | app.py:177-181 | A record meets the criteria when it has every criteria field with exactly the required value; a missing field fails. |
| Restaurants.Summary | app.py:189-196 | The summary has exactly the six fields name, style, address, openHour, closeHour, vegetarian, each copied from the record. |
| Restaurants.Matching | app.py:177-183 | The result holds each stored record that meets every criterion as often as the store does, and no other record. |
| Restaurants.MatchingMembers | app.py:177-183 | A record is matched exactly when it is in the store and agrees with every criterion; a record lacking a criterion field is not matched. |
| Restaurants.Summaries | app.py:187-197 | Projection succeeds exactly when every match has all six summary fields. It then yields one summary per match, in the same order. |
| Restaurants.Lookup | app.py:177-197 | Not-found is answered exactly when no stored record meets every criterion, with its fixed message. A server error is answered exactly when some record meeting them lacks a summary field. Otherwise the answer is a non-empty list of recommendations. |
| Restaurants.GetRecommendations | app.py:169-197 | An absent or empty `q` gives "Query parameters not provided", and a query with no recognised criteria gives "Invalid query parameters"; a bad request is answered exactly in those two cases, before and whatever the store holds. Any other query is answered by looking its criteria up in the store. |
| Restaurants.SummariesFailIff | app.py:187-197 | Projection fails exactly when some match lacks one of the six summary fields. |
| Restaurants.RecommendationsAreSound | app.py:177-197 | Every recommendation is the summary of a stored record that satisfies every criterion. |
| Restaurants.RecommendationsAreComplete | app.py:177-197 | Every stored record satisfying every criterion appears, summarised, among the recommendations. |
| Restaurants.RecommendationsHaveSummaryShape | app.py:187-197 | Each recommendation carries exactly the six fields name, style, address, openHour, closeHour, vegetarian, and agrees with each criterion it carries. |
| Restaurants.CreateRestaurant | app.py:147-165 | Creation succeeds exactly when the caller is authorised and all six required keys are present. Otherwise the store is unchanged (403 before 400). On success exactly one record with exactly those six fields, copied from the body, is appended. |
| Restaurants.CreatedMissesUnprojectedCriteria | app.py:156-163 | A restaurant created through the endpoint never satisfies criteria that name a field outside the six, such as glutenFree or delivery. |
| Restaurants.SatisfyingRecordIsRecommended | app.py:177-197 | If every stored record that satisfies the criteria carries the summary fields, criteria that a stored record satisfies are answered with recommendations that include that record's summary. Records the criteria reject may lack any field. |
| Restaurants.CreatedIsRecommended | app.py:156-197 | A restaurant just created is recommended for any criteria it meets, provided every stored record that meets them can be summarised. |

## Left out

- Text.Lower: models the ASCII case mapping only. Python's `str.lower()` also maps non-ASCII capitals. The keywords are ASCII, so recognition is unaffected, but a non-ASCII capital inside an hour or address word is kept as written.
- The record store (Cosmos DB client, database and containers, `query_items`, `create_item`) is a sequence-of-records parameter. Store failures and timeouts, which surface as a 500 through the generic error handler, are not modelled. The items built at app.py:156-163 and app.py:226-231 carry no `id`. By default, azure-cosmos 4.x `create_item` does not generate one, so the service rejects such a body. Under that default the program would answer 500 for every creation and, through `log_request`, for every successful lookup. The `Created` outcome, `Restaurants.CreatedIsRecommended` and the lookup's success answer assume a store that assigns ids itself.
- The SQL text built from the criteria is replaced by its meaning, a conjunction of field equalities. Quoting is not modelled. The source interpolates values into the query text unescaped (app.py:180), and an address value can hold several words (app.py:272), so a value containing `'` can make the query malformed or change its meaning: the query `street' or 'a'='a` yields the filter `c.address = 'street' or 'a'='a'`, which every record passes. The backslash starts an escape sequence inside a Cosmos DB SQL string literal, so it changes the query as well: for the query `open 1:\u0030` the source compares `openHour` with `1:0`, while `Restaurants.Satisfies` compares it with the seven characters as written; an address word ending in a backslash escapes the closing quote, so the source's query is malformed and it answers 500, while `Restaurants.Lookup` answers with recommendations or not-found. `Restaurants.Matching` and the lemmas built on it describe the program only for criteria values that contain neither `'` nor a backslash. `Restaurants.Lookup` with no criteria matches every record, while the source's query text would then end in a bare `WHERE`; `get_recommendations` never looks up empty criteria.
- Record and body values are strings. JSON typing is not modelled: a body whose `vegetarian` is the JSON boolean `true` would be stored as a boolean, which the string comparison with `'true'` does not match.
- Authorisation (`is_authorized`, MSAL token exchange, role claims) becomes the boolean parameter `authorized`. User provisioning and role assignment are network calls to an identity service.
- Flask routing, JSON rendering and the error handlers are reduced to the `Response` datatype and its status codes. A request body that is not a JSON object is not modelled.
- The audit log (`log_request`, the `/requests` listing) depends on the wall clock and an external append, so it is left out. In the source a failing audit append turns a successful lookup into a 500; the model assumes the append succeeds.
- Store order: the model keeps the store's order in its answer, but no statement depends on it, since the store promises none.
- Scenarios.FullQuery: stated on the nine words of the query rather than on the query string, because equating `Text.Join` of the nine literal words with the 57-character query literal is too costly to verify; `Parser.ParseOfJoin` relates the two for any lower-case query of single-spaced words.
