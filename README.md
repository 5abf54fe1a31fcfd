# Provably-fair dice engine, modelled in Dafny

This project models the `DiceGame` class of a small Ruby dice game and proves
properties of that model.

At construction the game draws a secret server seed and publishes its SHA-256
hash as a commitment. When a registered player (identified by email) bets on
a target between 1 and 99, `play` does the following in order:

1. It checks the target and the bet.
2. It reads the player's last nonce from the `users` table.
3. It writes back that nonce + 1.
4. It draws a number in 1..100 from the SHA-512 hexdigest of
   `"server_seed:client_seed:nonce"`.
5. It settles the round. The player wins when the number is at most the
   target, and a win pays the bet times a multiplier, rounded to cents.

The multiplier is `(100/target)·(1 − edge)`, where the edge is 1% and grows by
0.2 percentage points for each unit the target lies above 50. `verify` repeats
the draw from a revealed seed, so anyone can check a claimed number.

Files:

- `Digits.dfy` (module `Digits`): Ruby's `Integer#to_s`, the lowercase
  hexadecimal form `hexdigest` gives a digest, and `String#to_i(16)`. Both
  renderings are proved to round-trip.
- `HouseEdge.dfy` (module `HouseEdge`): `calculate_dynamic_edge`,
  `calculate_payout_multiplier` and `Float#round(2)`, over exact reals.
- `Fairness.dfy` (module `Fairness`): the hashed message, the drawn number,
  `verify`, the settlement of a round and the round record `play` returns.
  It also proves that the message can be split back into its parts.
- `Game.dfy` (module `Game`): the `users` table as a class with a mutable
  `map<string, int>` field, the `DiceGame` class (seed, commitment, the two
  digest functions and the table, all constant fields) with `play`. It ends
  with the round-level unit tests of `test/dice_game_test.rb`, written as
  methods whose postconditions state what the tests assert.

The digests SHA-256 and SHA-512 (FIPS 180-4, sections 6.2 and 6.4) are not
modelled. The `DiceGame` constructor takes them as function values whose only
known property is the digest length (32 and 64 bytes). Every result about the
drawn number therefore holds for any hash function whatsoever. The server
seed, which Ruby takes from `SecureRandom.hex(32)`, is also a constructor
parameter. It is required to have the shape that call produces: 64 lowercase
hexadecimal characters.

## Model

| member | source | states |
|---|---|---|
| `Digits.NatToDecimal` | app.rb:60 | a non-negative nonce renders as decimal digits whose first digit is '0' only for the value 0 (no leading zeros) |
| `Digits.IntToDecimal` | app.rb:60 | the nonce's decimal text is an optional '-' followed by digits, has no leading zero (as `Integer#to_s` writes it), and never contains the ':' delimiter |
| `Digits.IntToDecimalRoundTrip` | app.rb:60 | reading the decimal text back gives the nonce again, negative nonces included |
| `Digits.IntToDecimalInjective` | app.rb:60 | two different nonces never render to the same text |
| `Digits.HexDigest` | app.rb:61 | a digest of b bytes renders as exactly 2·b lowercase hexadecimal characters |
| `Digits.HexToInt` | app.rb:62 | `to_i(16)` gives 0 for text that does not start with a hex digit, and the full hexadecimal value of text made only of hex digits |
| `Digits.HexDigestRoundTrip` | app.rb:61-62 | `to_i(16)` applied to a digest's lowercase hexdigest gives exactly the digest's big-endian value |
| `HouseEdge.Edge` | app.rb:23-27 | the edge is exactly 0.01 for target ≤ 50 and 0.01 + 0.002·(target − 50) above 50 |
| `HouseEdge.EdgeMonotone` | app.rb:23-27 | the edge never decreases as the target grows |
| `HouseEdge.EdgeBounds` | app.rb:23-27 | on targets 1..99 the edge lies between 0.01 and 0.108 |
| `HouseEdge.EdgeExamples` | test/dice_game_test.rb:9-18 | edge(1) = edge(50) = 0.01, edge(70) = 0.05, edge(90) = 0.09, edge(99) = 0.108, all exactly |
| `HouseEdge.Multiplier` | app.rb:38-42 | for every non-zero target, multiplier · target = 100 · (1 − edge): the fair odds 100/target scaled down by the edge |
| `HouseEdge.MultiplierClosedForm` | app.rb:38-42 | for a positive target the multiplier is 99/target up to 50 and 109/target − 0.2 from 50 on |
| `HouseEdge.MultiplierStrictlyDecreasing` | app.rb:38-42 | on 1..99 a larger target always gives a strictly smaller multiplier |
| `HouseEdge.MultiplierPositive` | app.rb:38-42 | on 1..99 the multiplier is positive |
| `HouseEdge.MultiplierBelowOne` | app.rb:38-42 | on 1..99 the multiplier is below 1 exactly when the target is 91 or more, so bet·multiplier is below the bet from 91 on; the payout rounded to cents can still equal the stake (1.0 bet at target 91 pays 1.0) |
| `HouseEdge.ReturnToPlayer` | test/rtp_simulation_test.rb:59 | the win chance target/100 times the multiplier is exactly 1 − edge, the theoretical return to player |
| `HouseEdge.MultiplierExamples` | test/dice_game_test.rb:20-26 | multiplier(50) = 1.98 exactly; rounded to cents, multiplier(70) = 1.36, multiplier(90) = 1.01, multiplier(99) = 0.90 |
| `HouseEdge.Round2` | app.rb:69 | the rounded value is within half a cent of its input and is a whole number of cents; an exact half cent goes away from zero |
| `HouseEdge.Round2Idempotent` | app.rb:69 | rounding an already rounded amount changes nothing |
| `HouseEdge.Round2NonNegative` | app.rb:69 | rounding a non-negative amount never gives a negative one |
| `Fairness.ServerSeedHasNoColon` | app.rb:30 | a seed of the form `SecureRandom.hex(32)` produces contains no ':' |
| `Fairness.Message` | app.rb:60 | the hashed text opens with the server seed and ':', holds exactly the client seed between that ':' and the last one, and ends with ':' and exactly the nonce's `Integer#to_s` text, which is colon-free and reads back as the nonce (`IntToDecimal`, `IntToDecimalRoundTrip`) |
| `Fairness.Roll` | app.rb:60-62 | the drawn number is in 1..100 for every seed, client seed, nonce and digest |
| `Fairness.RollIsDigestValue` | app.rb:61-62 | the drawn number is the SHA-512 digest's integer value mod 100, plus 1 |
| `Fairness.Verify` | app.rb:84-96 | a number that passes verification lies in 1..100 |
| `Fairness.VerifyAcceptsExactlyTheRoll` | app.rb:84-96 | documents the recompute-and-compare definition: a claim passes exactly when it equals the drawn number (the property about `verify` is `OutcomeVerifies`) |
| `Fairness.VerifyIgnoresBet` | app.rb:84 | the verdict is the same whatever `bet` argument is passed |
| `Fairness.Settle` | app.rb:65-70 | win iff number ≤ target; a loss pays 0.0; a win pays within half a cent of bet·multiplier, and an exact half cent goes up for a positive bet (away from zero); the payout is whole cents and not negative for a positive bet |
| `Fairness.Outcome` | app.rb:59-81 | the round record holds the number drawn by `Roll` from (seed, client seed, nonce), which lies in 1..100, win iff number ≤ target, the server seed, nonce, target and bet it was played with, 0.0 on a loss and round(bet·multiplier, 2) on a win |
| `Fairness.OutcomeVerifies` | test/dice_game_test.rb:90-106 | every played round passes `verify` with its own server seed, nonce and number and the client seed it was played with, whatever bet is passed |
| `Fairness.MessageDeterminesRound` | app.rb:60 | under one server seed, equal hashed messages mean equal client seeds and equal nonces, so rounds with different nonces hash different texts |
| `Fairness.MessageInjective` | app.rb:60 | for colon-free server seeds the hashed message determines server seed, client seed and nonce |
| `Game.UserTable.constructor` | app.rb:13-18 | the table starts with exactly the given email→last_nonce rows |
| `Game.UserTable.SelectLastNonce` | app.rb:50-51 | a row is found exactly when the email is in the table, and it holds that email's last nonce |
| `Game.UserTable.UpdateLastNonce` | app.rb:57 | the UPDATE sets the email's last nonce when the row exists and changes nothing otherwise |
| `Game.DiceGame.constructor` | app.rb:29-32 | the server seed is the given one and the stored hash is the SHA-256 hexdigest of that seed |
| `Game.DiceGame.GetServerSeedHash` | app.rb:34-36 | the published commitment is 64 lowercase hex characters and is the SHA-256 hexdigest of the live seed |
| `Game.DiceGame.Play` | app.rb:44-82 | targets outside 1..99, then non-positive bets, then unknown emails are refused, in that order, with the table unchanged; a round is played exactly when all three checks pass, and then the player's nonce rises by one, no other row changes and the result is the round drawn with the new nonce and the live seed |
| `Game.NonceIncrementScenario` | test/dice_game_test.rb:108-119 | from a row at 0, two plays use nonces 1 and then 2, and the row ends at 2 |
| `Game.InvalidInputsScenario` | test/dice_game_test.rb:64-88 | target 0, target 100, bet −100.0 and an unregistered email are each refused with the matching error, and the row stays at 0 |
| `Game.WinAndVerifyScenario` | test/dice_game_test.rb:28-62 | a bet of 100.0 on 50 is played with nonce 1; its number is in 1..100; it wins iff number ≤ 50; it pays 198.0 on a win and 0.0 on a loss; it echoes seed, target and bet; and it passes `verify` |

## Left out

- Sinatra configuration, routes, `erb` rendering and the multiplier `puts` lines (app.rb:7-9, app.rb:99-249) are transport and presentation, and so are the `to_i`/`to_f` conversions of form input. The targets and bets reach `Play` already as an `int` and a `real`.
- Registration (`INSERT OR IGNORE`, app.rb:125) and its email check with `URI::MailTo::EMAIL_REGEXP` (app.rb:123) happen in a route. The table is instead built from its initial rows, as the tests set them up.
- SQLite itself (app.rb:12-18) is replaced by a map: no transactions, no persistence, no 64-bit column limit.
- The race between the SELECT and the UPDATE when two plays for one email run at once (app.rb:50-57) is not modelled. The model is strictly sequential.
- `SecureRandom.hex` for the server seed (app.rb:30) and the default client seed (app.rb:153) is an entropy source. Both values are parameters.
- The SHA-256 and SHA-512 compression functions are not modelled; the digests are function parameters. For that reason no statement depends on collision resistance or uniformity. In particular, the model does not claim that changing the client seed or the nonce changes the drawn number. It proves only that the hashed text changes (`MessageDeterminesRound`).
- The hashed message is modelled on `seq<char>`. The UTF-8 encoding Ruby hashes is left out.
- `String#to_i(16)` is modelled as reading the leading run of hexadecimal digits. Ruby's leading whitespace, sign, `0x` prefix and `_` separators are left out, because the only text it reads here is a hexdigest, which has none of them.
- Edge, multiplier and payout are exact reals, not IEEE doubles. Ruby's `Float#round(2)` is modelled as rounding halves away from zero on the exact value. Its binary-float corner cases are not matched.
- `HouseEdge.Multiplier`: target 0 is excluded, because Ruby's answer there is Infinity, which has no real counterpart. Every other integer target is allowed.
- The Monte Carlo return-to-player and variance test (test/rtp_simulation_test.rb) rests on the hash being uniform and on floats. Only its theoretical value, 1 − edge, is proved (`ReturnToPlayer`).
- The constant `HOUSE_EDGE = 0.01` (app.rb:21) is never read by the code, so it has no counterpart.
