/** DiceGame itself: the server seed fixed at construction and its
    published SHA-256 commitment, the `users` table that holds each
    player's last nonce, and `play`, which validates a bet, advances the
    player's nonce, draws the number and settles the round. */
module Game {
  import opened Digits
  import opened HouseEdge
  import opened Fairness

  datatype Option<T> = None | Some(value: T)

  /** The three ways `play` refuses a bet (RuntimeError messages in Ruby). */
  datatype PlayError = InvalidTarget | InvalidBet | UserNotFound

  datatype PlayResult = Played(round: Round) | Refused(error: PlayError)

  /** The `users` table: email (the primary key) to last_nonce. */
  class UserTable {
    var lastNonce: map<string, int>

    constructor (rows: map<string, int>)
      ensures lastNonce == rows
    {
      lastNonce := rows;
    }

    /** SELECT last_nonce FROM users WHERE email = ?, first row. */
    method SelectLastNonce(email: string) returns (row: Option<int>)
      ensures row.Some? <==> email in lastNonce
      ensures row.Some? ==> row.value == lastNonce[email]
    {
      row := if email in lastNonce then Some(lastNonce[email]) else None;
    }

    /** UPDATE users SET last_nonce = ? WHERE email = ?: no row, no change. */
    method UpdateLastNonce(email: string, nonce: int)
      modifies this
      ensures email in old(lastNonce) ==> lastNonce == old(lastNonce)[email := nonce]
      ensures email !in old(lastNonce) ==> lastNonce == old(lastNonce)
    {
      if email in lastNonce {
        lastNonce := lastNonce[email := nonce];
      }
    }
  }

  class DiceGame {
    const serverSeed: string
    const serverSeedHash: string
    const sha256: Sha256
    const sha512: Sha512
    const users: UserTable

    /** The seed has the form SecureRandom.hex(32) gives it, and the
        published hash commits to it. Both fields are constants, so nothing
        after the constructor can break this. */
    ghost predicate Valid() {
      IsServerSeed(serverSeed) && serverSeedHash == HexDigest(sha256(serverSeed))
    }

    /** initialize, with the entropy source's output passed in as `seed`. */
    constructor (users: UserTable, seed: string, sha256: Sha256, sha512: Sha512)
      requires IsServerSeed(seed)
      ensures Valid()
      ensures this.users == users && serverSeed == seed
      ensures this.sha256 == sha256 && this.sha512 == sha512
      ensures serverSeedHash == HexDigest(sha256(seed))
    {
      this.users := users;
      this.sha256 := sha256;
      this.sha512 := sha512;
      serverSeed := seed;
      serverSeedHash := HexDigest(sha256(seed));
    }

    /** get_server_seed_hash: 64 lowercase hexadecimal characters that
        commit to the seed. */
    method GetServerSeedHash() returns (h: string)
      requires Valid()
      ensures |h| == 64 && IsLowerHex(h)
      ensures h == HexDigest(sha256(serverSeed))
    {
      h := serverSeedHash;
    }

    /** play. Every refusal happens before the UPDATE and leaves the table
        as it was; a round played moves the player's nonce up by exactly
        one, touches no other row and reports the round drawn with the new
        nonce. */
    method Play(email: string, clientSeed: string, target: int, bet: real) returns (r: PlayResult)
      modifies users
      ensures !(1 <= target <= 99) ==> r == Refused(InvalidTarget)
      ensures 1 <= target <= 99 && !(bet > 0.0) ==> r == Refused(InvalidBet)
      ensures 1 <= target <= 99 && bet > 0.0 && email !in old(users.lastNonce)
              ==> r == Refused(UserNotFound)
      ensures r.Refused? ==> users.lastNonce == old(users.lastNonce)
      ensures r.Played? <==> 1 <= target <= 99 && bet > 0.0 && email in old(users.lastNonce)
      ensures r.Played? ==>
        && users.lastNonce == old(users.lastNonce)[email := old(users.lastNonce)[email] + 1]
        && r.round == Outcome(sha512, serverSeed, clientSeed, users.lastNonce[email], target, bet)
      ensures forall e :: e != email && e in old(users.lastNonce) ==>
                e in users.lastNonce && users.lastNonce[e] == old(users.lastNonce)[e]
      ensures users.lastNonce.Keys == old(users.lastNonce.Keys)
    {
      if !(1 <= target <= 99) {
        return Refused(InvalidTarget);
      }
      if !(bet > 0.0) {
        return Refused(InvalidBet);
      }
      var row := users.SelectLastNonce(email);
      if row.None? {
        return Refused(UserNotFound);
      }
      var currentNonce := row.value + 1;
      users.UpdateLastNonce(email, currentNonce);

      var number := Roll(sha512, serverSeed, clientSeed, currentNonce);

      var settlement := Settle(number, target, bet);

      r := Played(Round(settlement.win, number, serverSeed, currentNonce,
                        settlement.payout, target, bet));
    }
  }

  // -------------------------------------------------- the tests, as proofs

  const TestEmail := "test@example.com"
  const TestClientSeed := "test_seed"

  /** A fresh row and two plays: the nonces used are 1, then 2. */
  method NonceIncrementScenario(seed: string, sha256: Sha256, sha512: Sha512)
    returns (first: int, second: int, rows: map<string, int>)
    requires IsServerSeed(seed)
    ensures first == 1 && second == 2
    ensures rows == map[TestEmail := 2]
  {
    var users := new UserTable(map[TestEmail := 0]);
    var game := new DiceGame(users, seed, sha256, sha512);
    var r1 := game.Play(TestEmail, TestClientSeed, 50, 100.0);
    var r2 := game.Play(TestEmail, TestClientSeed, 50, 100.0);
    first := if r1.Played? then r1.round.nonce else 0;
    second := if r2.Played? then r2.round.nonce else 0;
    rows := users.lastNonce;
  }

  /** Targets 0 and 100, a negative bet and an unknown email are all
      refused, and the registered player's nonce stays at 0. */
  method InvalidInputsScenario(seed: string, sha256: Sha256, sha512: Sha512)
    returns (low: PlayResult, high: PlayResult, negative: PlayResult, unknown: PlayResult,
             rows: map<string, int>)
    requires IsServerSeed(seed)
    ensures low == Refused(InvalidTarget) && high == Refused(InvalidTarget)
    ensures negative == Refused(InvalidBet)
    ensures unknown == Refused(UserNotFound)
    ensures rows == map[TestEmail := 0]
  {
    var users := new UserTable(map[TestEmail := 0]);
    var game := new DiceGame(users, seed, sha256, sha512);
    low := game.Play(TestEmail, TestClientSeed, 0, 100.0);
    high := game.Play(TestEmail, TestClientSeed, 100, 100.0);
    negative := game.Play(TestEmail, TestClientSeed, 50, -100.0);
    unknown := game.Play("nonexistent@email.com", TestClientSeed, 50, 100.0);
    rows := users.lastNonce;
  }

  /** One round at target 50 for 100.0: it is played, its number lies in
      1..100, it wins exactly when the number is at most 50, it pays 0.0 on
      a loss and round(100.0 * multiplier(50), 2) = 198.0 on a win, and it
      passes verification with its own seed, nonce and number. */
  method WinAndVerifyScenario(seed: string, sha256: Sha256, sha512: Sha512)
    returns (r: PlayResult, verified: bool)
    requires IsServerSeed(seed)
    ensures r.Played?
    ensures 1 <= r.round.number <= 100
    ensures r.round.win <==> r.round.number <= 50
    ensures r.round.serverSeed == seed && r.round.nonce == 1
    ensures r.round.target == 50 && r.round.bet == 100.0
    ensures r.round.win ==> r.round.payout == 198.0
    ensures !r.round.win ==> r.round.payout == 0.0
    ensures verified
  {
    var users := new UserTable(map[TestEmail := 0]);
    var game := new DiceGame(users, seed, sha256, sha512);
    r := game.Play(TestEmail, TestClientSeed, 50, 100.0);
    MultiplierExamples();
    verified := Verify(sha512, r.round.serverSeed, TestClientSeed, r.round.target,
                       r.round.nonce, r.round.number);
  }
}
