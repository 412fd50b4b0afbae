# Visitor identity and bot verification, modelled in Dafny

This project models the core of *definitely-not-an-ip-logger*. That is a small web
server that recognises repeat visitors by their IP address. It gives each visitor a
rank in first-seen order, and it treats every visitor as a bot until the visitor's
browser redeems a short-lived token. The model covers three pieces:

- `ConversionUtils` (conversion_utils.dfy) models `ip_to_i32`, which turns address
  text into a `u32` key. The method `IpToI32` keeps the source's `for i in 0..4`
  loop and its early returns. It is proved equal to the specification function
  `IpToKey`, and the lemmas about the key are stated about `IpToKey`. Rust's
  `str::split` and `u32::from_str` are modelled as `Split` and `ParseU32`.
  Release-build `u32` arithmetic wraps modulo 2^32, and the model states that
  wrap-around explicitly.
- `Persistence` (user_info.dfy) models the visitor ledger. The SQLite table
  `user_visits(id, user, is_bot)` is the class `Ledger`: a sequence of rows plus an
  auto-increment counter. Each SQL string in the source becomes a function over the
  rows:
  - `LatestRow` is the `ORDER BY id DESC LIMIT 1` select;
  - `ClearBot` is the `UPDATE`;
  - `CountFlag` is the `count(*)` queries.

  Every database statement takes a boolean parameter saying whether the storage
  engine executed it. A failed statement changes nothing. `UserInfo::new` is the
  `UserInfo` datatype constructor, which stores `ip_dec`, `rank` and `is_bot`
  unchanged.
- `PendingValidations` (main.dfy) models the token map of `index` and `bot_reply`.
  It is the class `ValidationStore` with a `map` field.
  - `Issue` is the insert in `index`.
  - `Redeem` is the redeem sequence: membership test, remove, expiry check, ledger
    update, `retain` sweep, and re-insert when the ledger update fails.
  - The random token id and the clock reading are parameters. Time is counted in
    whole nanoseconds.

`Types` (types.dfy) holds `u32`, `Option` and the unit-error `Result`.

Some behaviours of the code are worth stating outright:

- The key is the weighted sum `s0 + 2*s1 + 3*s2 + 4*s3`, wrapping modulo 2^32. It
  is not big-endian byte packing: `127.0.0.1` gives 131 (`LoopbackKey`). The key is
  not invertible (`NotInjective`, `SameKeyIffSameSum`).
- Segments are not limited to 0-255 (`NotRangeChecked`).
- Four or more segments are accepted, and segments after the fourth are ignored
  (`ExtraSegmentsIgnored`).
- `set_user_not_bot` clears the flag on every row of the user, not only on the
  latest row (`ClearBot`).
- If the first select of `get_user_info` fails, a second row for the same user is
  inserted. The user then gets a new rank and is a bot again (the second
  postcondition of `Persistence.Ledger.GetUserInfo`). So rank permanence and a
  one-way bot flag are not guaranteed.
- Issuing a token overwrites a pending token with the same id
  (`PendingValidations.ValidationStore.Issue`). It does not regenerate the id.
- The sweep runs only on the path where the token has not expired. An unknown
  token or an expired token returns before the sweep.

## Model

| member | source | states |
|---|---|---|
| ConversionUtils.Split | src/conversion_utils.rs:4-7 | `split` always yields at least one piece, so the `len() < 1` guard never fires; no piece contains the separator, joining the pieces gives back the text, and the first piece is the prefix up to the first separator (or the whole text) |
| ConversionUtils.SplitJoin | src/conversion_utils.rs:9 | splitting pieces that were joined with a separator none of them contains gives back exactly those pieces |
| ConversionUtils.SplitWithoutSeparator | src/conversion_utils.rs:4 | text without the separator splits into itself alone |
| ConversionUtils.SplitAfterPiece | src/conversion_utils.rs:4 | a separator-free piece followed by the separator splits off as the first piece |
| ConversionUtils.Decimal | src/conversion_utils.rs:17 | every natural number has a non-empty all-digit decimal spelling, with no leading zero, whose value is that number |
| ConversionUtils.ParseU32 | src/conversion_utils.rs:17 | `u32::from_str` accepts only non-empty text of digits with at most a leading `+` (not a lone `+`), and a plain digit run whose value is below 2^32 parses to that value |
| ConversionUtils.ParseDecimal | src/conversion_utils.rs:17 | `u32::from_str` of the decimal spelling of n gives n back when n is below 2^32 and fails otherwise; a leading `+` changes nothing |
| ConversionUtils.ParseFailures | src/conversion_utils.rs:17-19 | `u32::from_str` rejects empty text, a lone `+`, any character that is neither a digit nor `+` (a `-` included), and a digit run whose value is 2^32 or more |
| ConversionUtils.ParseSegments | src/conversion_utils.rs:16-20 | the segments parse exactly when each one does, and then the i-th value is the parse of the i-th segment |
| ConversionUtils.WrappingAdd | src/conversion_utils.rs:18 | release-build `u32` `+=`: the exact sum when it fits, otherwise the sum minus 2^32 |
| ConversionUtils.WrappingMul | src/conversion_utils.rs:18 | release-build `u32` `*`: the exact product when it fits, and always congruent to the product modulo 2^32 |
| ConversionUtils.WrappingStep | src/conversion_utils.rs:18 | one wrapping `out += s * (i + 1)` keeps `out` equal to the exact weighted sum modulo 2^32 |
| ConversionUtils.WeightedSumOfFour | src/conversion_utils.rs:14-21 | four loop iterations sum to `s0 + 2*s1 + 3*s2 + 4*s3` |
| ConversionUtils.ParseStep | src/conversion_utils.rs:16-18 | parsing one more segment extends the parsed prefix by its value |
| ConversionUtils.Segments | src/conversion_utils.rs:4-9 | the `.`-pieces of the text before the first `:`: at least one, none containing `.`, and joined back they give a prefix of the address that contains no `:` and is followed by `:` or ends the text |
| ConversionUtils.IpToKey | src/conversion_utils.rs:3-24 | a key exists exactly when there are at least four segments and each of the first four parses as a `u32` |
| ConversionUtils.IpToI32 | src/conversion_utils.rs:3-24 | the loop with its early returns computes exactly `IpToKey` |
| ConversionUtils.ShortAddressRejected | src/conversion_utils.rs:9-12 | fewer than four `.` segments before the first `:` give None |
| ConversionUtils.BadSegmentRejected | src/conversion_utils.rs:16-20 | any of the first four segments that is not a `u32` gives None |
| ConversionUtils.AcceptedKeyIsWeightedSum | src/conversion_utils.rs:14-23 | when the first four segments parse as a, b, c, d, the key is `(a + 2b + 3c + 4d) mod 2^32` |
| ConversionUtils.ParseFour | src/conversion_utils.rs:16-20 | four segments that each parse give exactly the four values, in order |
| ConversionUtils.PortIgnored | src/conversion_utils.rs:4 | everything from the first `:` on is ignored: `host:port` has the key of `host` |
| ConversionUtils.ExtraSegmentsIgnored | src/conversion_utils.rs:10-16 | with four or more `.`-separated pieces, only the first four count: the key equals that of the first four alone |
| ConversionUtils.NotInJoin | src/conversion_utils.rs:9 | a character other than the separator that is in none of the pieces is not in their join either |
| ConversionUtils.SegmentsOfJoin | src/conversion_utils.rs:4-9 | a `.`-join of pieces free of `.` and `:` has exactly those pieces as segments |
| ConversionUtils.DecimalHasNoSeparators | src/conversion_utils.rs:4-9 | a decimal spelling contains neither `.` nor `:` |
| ConversionUtils.SegmentsOfDecimalQuad | src/conversion_utils.rs:4-9 | the segments of `a.b.c.d` are the four decimal spellings |
| ConversionUtils.DottedDecimalKey | src/conversion_utils.rs:3-24 | every dotted quad of `u32` values is accepted, with key `(a + 2b + 3c + 4d) mod 2^32` |
| ConversionUtils.SmallDottedDecimalKey | src/conversion_utils.rs:14-23 | without overflow the key of `a.b.c.d` is the plain weighted sum `a + 2b + 3c + 4d` |
| ConversionUtils.LoopbackKey | src/conversion_utils.rs:3-24 | `127.0.0.1` gives 131 |
| ConversionUtils.NotRangeChecked | src/conversion_utils.rs:17-18 | `a.0.0.0` has key `a` for every `u32` value of a, for example 300 |
| ConversionUtils.DecimalQuadInjective | src/conversion_utils.rs:9 | equal dotted-quad texts have equal numbers |
| ConversionUtils.EqualSumsShareKey | src/conversion_utils.rs:14-23 | dotted quads whose weighted sums are equal have the same key |
| ConversionUtils.SameKeyIffSameSum | src/conversion_utils.rs:14-23 | two dotted quads share a key exactly when their weighted sums agree modulo 2^32 |
| ConversionUtils.NotInjective | src/conversion_utils.rs:17-18 | `(a+2).b.c.d` and `a.(b+1).c.d` are different texts with the same key (2.0.0.0 and 0.1.0.0) |
| Persistence.LatestRow | src/persistence/user_info.rs:101-104 | `ORDER BY id DESC LIMIT 1`: none exactly when the user has no row; otherwise a row of the table, of that user, whose id is at least every id of that user |
| Persistence.LatestRowUnique | src/persistence/user_info.rs:102 | ids are unique, so a row of the user whose id is maximal is the select's one answer |
| Persistence.LatestRowAfterAppend | src/persistence/user_info.rs:125 | a row appended with a larger id than every other is the latest row of its user; other users' latest rows are unchanged |
| Persistence.ClearBot | src/persistence/user_info.rs:94-95 | the `UPDATE`: same rows, ids and users; a row is a bot afterwards exactly when it was one and belongs to another user |
| Persistence.ClearBotIdempotent | src/persistence/user_info.rs:94-97 | applying the update twice equals applying it once |
| Persistence.ClearBotWellFormed | src/persistence/user_info.rs:94-95 | the update keeps ids positive, increasing and below the counter |
| Persistence.ClearBotEffect | src/persistence/user_info.rs:94-95 | no row of the user is a bot afterwards; other users' rows are unchanged; the user's latest row exists exactly when it did before, and it is not a bot |
| Persistence.ClearBotCounts | src/persistence/user_info.rs:66-95 | the update never raises the bot count and never lowers the verified count |
| Persistence.CountFlag | src/persistence/user_info.rs:68 | a flag count is at most the number of rows |
| Persistence.CountFlagAppend | src/persistence/user_info.rs:78-88 | appending a row raises the count of its flag by one and leaves the other count unchanged |
| Persistence.CountsPartition | src/persistence/user_info.rs:56-88 | total rows = bot rows + verified rows |
| Persistence.Ledger.constructor | src/persistence/mod.rs:29-32 | the empty table the migration run leaves behind, with the counter at 1; the rest of the setup code is I/O (see below) |
| Persistence.Ledger.GetUserById | src/persistence/user_info.rs:100-122 | a failed query gives None; otherwise Some exactly when the user has a row, carrying the key, the latest row's id as rank, and its bot flag |
| Persistence.Ledger.InsertUser | src/persistence/user_info.rs:124-128 | a successful insert appends `(next id, user, is_bot = true)` and advances the counter; a failed one changes nothing |
| Persistence.Ledger.GetUserInfo | src/persistence/user_info.rs:25-40 | a known user is returned from its latest row and nothing is written; otherwise exactly one bot row is appended and its id is the rank (Err if the re-select fails); a failed insert writes nothing and gives Err; any returned rank is the latest row's |
| Persistence.Ledger.IsUserBot | src/persistence/user_info.rs:42-54 | a known user's latest bot flag, with no write; an unknown user gets one bot row and the answer true; a failed insert gives Err |
| Persistence.Ledger.GetTotalUserCount | src/persistence/user_info.rs:56-64 | None exactly when the query fails; otherwise the number of rows, which is bots plus verified |
| Persistence.Ledger.GetUserCount | src/persistence/user_info.rs:66-76 | None exactly when the query fails; otherwise the number of rows with `is_bot` false |
| Persistence.Ledger.GetBotCount | src/persistence/user_info.rs:78-88 | None exactly when the query fails; otherwise the number of rows with `is_bot` true |
| Persistence.Ledger.SetUserNotBot | src/persistence/user_info.rs:90-98 | success applies `ClearBot` to the table, so every row of the user is verified; failure changes nothing |
| Persistence.ResolveTwice | src/persistence/user_info.rs:25-40 | when both selects succeed, resolving a user twice gives the same result, and the second call writes nothing: neither the rows nor the id counter change |
| Persistence.FirstSeenOrder | src/persistence/user_info.rs:102-125 | with every statement succeeding, two users first seen one after the other are returned as bots with ranks equal to the counter and the counter plus one, both above every existing id |
| PendingValidations.IsExpired | src/main.rs:45-47 | a token can be expired only once strictly more than ten seconds have passed since it was issued |
| PendingValidations.ExpiryBoundary | src/main.rs:16-47 | a token is still valid exactly ten seconds after issue and expired one nanosecond later |
| PendingValidations.ExpiryMonotone | src/main.rs:45-47 | once expired, a token stays expired |
| PendingValidations.NewValidation | src/main.rs:33-43 | a new token is bound to the user, carries the id, is stamped now, and is not expired for the next ten seconds |
| PendingValidations.Sweep | src/main.rs:149 | `retain`: exactly the entries not expired at now remain, with unchanged values |
| PendingValidations.SweepKeyed | src/main.rs:149 | the sweep keeps every entry under its own id |
| PendingValidations.SweepLater | src/main.rs:149 | a sweep at t1 followed by one at a later t2 equals the sweep at t2, so sweeping is idempotent |
| PendingValidations.ValidationStore.constructor | src/main.rs:204 | the empty token map |
| PendingValidations.ValidationStore.Issue | src/main.rs:74-82 | the new token is stored under its own id and overwrites any entry with that id; nothing else changes |
| PendingValidations.ValidationStore.Redeem | src/main.rs:128-157 | an unknown id gives BadRequest and changes nothing. An expired token is removed and gives Unauthorized, with no sweep and no ledger change. A live token is removed, the map is swept, and the ledger update runs. On success the answer is Ok and every row of the user is verified. On failure the original token is put back and the answer is InternalServerError. After a sweep no expired token remains, and every live token other than the redeemed one is kept |
| PendingValidations.RedeemTwice | src/main.rs:132-139 | a second redemption of the same id gives BadRequest unless the first failed in the ledger; a successful first redemption leaves the ledger with the user's rows verified and the second changes nothing; otherwise the ledger changes only if the second one succeeds |
| PendingValidations.IssueThenRedeem | src/main.rs:74-157 | issuing a token and redeeming it within ten seconds, with a working ledger, gives Ok, spends the token and verifies the user |

## Left out

- HTTP handling is not modelled: routing, `connection_info`, the response bodies, Handlebars rendering, `fallback` and `main`. Only the token-map and ledger logic of `index` and `bot_reply` is modelled.
- `ip_to_u32` and `u32_to_ip` are called by the server but defined nowhere in the source, so they are not part of this model. `index` computes its key with `ip_to_u32`, and `UserInfo::new` fills `ip_str` with `u32_to_ip`, so the model's `UserInfo` has no `ip_str` field.
- `ConversionUtils.IpToI32` models the release build, where `u32` arithmetic wraps. A debug build panics on overflow instead. That panic is not modelled.
- src/persistence/mod.rs (database creation, migrations, `get_db_setup_time`) is left out apart from the empty table the migrations leave, which is `Persistence.Ledger.constructor`; build.rs, the template models and `TIME_FORMAT` are file, database or formatting I/O with no logic to state.
- The SQLite engine is reduced to its effect on one table. The schema file is not part of this model. The auto-increment id and the default `is_bot = TRUE` are taken from the insert statement and from the comment that new users are bots.
- Persistence.Ledger.GetUserById: the row id is decoded as a `u32` by `row.get("id")`. The model keeps the rank as an unbounded natural number, so the decode panic after 2^32 rows is not modelled.
- Persistence.Ledger.GetTotalUserCount: the count is a natural number. The `u32` decode of `count(*)` is not modelled.
- Persistence.Ledger.GetUserCount: the count is a natural number, as above.
- Persistence.Ledger.GetBotCount: the count is a natural number, as above.
- Concurrency is not modelled: async execution, the `Mutex`es, lock poisoning, and the select-then-insert race in `get_user_info` between two requests for the same user. Every operation runs sequentially. The futures are lazy, so the `UPDATE` of `bot_reply` runs when it is awaited, after the sweep. The model runs it before the sweep, which touches only the token map, so the final state is the same.
- PendingValidations.ValidationStore.Redeem reads the clock once. The source reads it again for the expiry check and for every entry visited by `retain`. The model uses one `now` for all of these.
- The random 16-character alphanumeric id is a parameter of `Issue`. Its shape is a precondition; its randomness is not modelled.
- The source's second BadRequest in `bot_reply`, for a `remove` that finds nothing, is unreachable after the membership test, so it has no counterpart in the model.
