/** The provably-fair part of DiceGame: the message that is hashed, the
    number drawn from its SHA-512 digest, the settlement of a round and the
    check `verify` offers to anyone holding the revealed server seed.

    SHA-256 and SHA-512 (FIPS 180-4, sections 6.2 and 6.4) are not modelled:
    they enter as function values of the types below, which only fix the
    digest length. */
module Fairness {
  import opened Digits
  import opened HouseEdge

  type Digest256 = b: seq<byte> | |b| == 32 witness seq(32, _ => 0 as byte)
  type Digest512 = b: seq<byte> | |b| == 64 witness seq(64, _ => 0 as byte)

  /** Digest::SHA256.digest and Digest::SHA512.digest, as opaque values. */
  type Sha256 = string -> Digest256
  type Sha512 = string -> Digest512

  /** What SecureRandom.hex(32) yields: 64 lowercase hexadecimal characters. */
  predicate IsServerSeed(s: string) {
    |s| == 64 && IsLowerHex(s)
  }

  lemma ServerSeedHasNoColon(s: string)
    requires IsServerSeed(s)
    ensures ':' !in s
  {
  }

  /** The hashed text "#{server_seed}:#{client_seed}:#{nonce}": it opens
      with the server seed and a ':', holds the client seed in the middle,
      and ends with a ':' and the nonce's decimal text (colon-free and
      canonical by IntToDecimal's contract). */
  function Message(serverSeed: string, clientSeed: string, nonce: int): (m: string)
    ensures |m| > |serverSeed| && m[..|serverSeed|] == serverSeed && m[|serverSeed|] == ':'
    ensures var d := IntToDecimal(nonce);
      |m| > |d| && m[|m| - |d| - 1] == ':' && m[|m| - |d|..] == d
    ensures |m| == |serverSeed| + |clientSeed| + |IntToDecimal(nonce)| + 2
    ensures m[|serverSeed| + 1..|m| - |IntToDecimal(nonce)| - 1] == clientSeed
  {
    var d := IntToDecimal(nonce);
    var m := serverSeed + ":" + clientSeed + ":" + d;
    assert m[|m| - |d|..] == d;
    assert m[|serverSeed| + 1..|m| - |d| - 1] == clientSeed;
    m
  }

  /** The drawn number: the SHA-512 hexdigest read with to_i(16), mod 100,
      plus 1. */
  function Roll(sha512: Sha512, serverSeed: string, clientSeed: string, nonce: int): (n: int)
    ensures 1 <= n <= 100
  {
    HexToInt(HexDigest(sha512(Message(serverSeed, clientSeed, nonce)))) % 100 + 1
  }

  /** The hexadecimal detour loses nothing: the number is the digest's
      big-endian value mod 100, plus 1. */
  lemma RollIsDigestValue(sha512: Sha512, serverSeed: string, clientSeed: string, nonce: int)
    ensures Roll(sha512, serverSeed, clientSeed, nonce)
         == BigEndian(sha512(Message(serverSeed, clientSeed, nonce))) % 100 + 1
  {
    HexDigestRoundTrip(sha512(Message(serverSeed, clientSeed, nonce)));
  }

  /** DiceGame#verify. The `bet` argument is accepted and ignored. */
  function Verify(sha512: Sha512, serverSeed: string, clientSeed: string, bet: int,
                  nonce: int, expected: int): (ok: bool)
    ensures ok ==> 1 <= expected <= 100
  {
    Roll(sha512, serverSeed, clientSeed, nonce) == expected
  }

  /** Restates, for the reader, that verify is recompute-and-compare:
      the claim passes exactly when it is the derived number. */
  lemma VerifyAcceptsExactlyTheRoll(sha512: Sha512, serverSeed: string, clientSeed: string,
                                    bet: int, nonce: int, expected: int)
    ensures Verify(sha512, serverSeed, clientSeed, bet, nonce, expected)
        <==> expected == Roll(sha512, serverSeed, clientSeed, nonce)
  {
  }

  lemma VerifyIgnoresBet(sha512: Sha512, serverSeed: string, clientSeed: string,
                         bet1: int, bet2: int, nonce: int, expected: int)
    ensures Verify(sha512, serverSeed, clientSeed, bet1, nonce, expected)
         == Verify(sha512, serverSeed, clientSeed, bet2, nonce, expected)
  {
  }

  // ------------------------------------------------------------- settlement

  datatype Settlement = Settlement(win: bool, payout: real)

  /** Result determination in DiceGame#play, for a target already checked
      to be in 1..99: a win when the number does not exceed the target;
      a win pays bet * multiplier rounded to cents (an exact half cent
      away from zero), a loss pays 0.0. */
  function Settle(number: int, target: int, bet: real): (s: Settlement)
    requires 1 <= target <= 99
    ensures s.win <==> number <= target
    ensures !s.win ==> s.payout == 0.0
    ensures s.win ==> -0.005 <= s.payout - bet * Multiplier(target) <= 0.005
    ensures s.win && bet > 0.0 ==> s.payout - bet * Multiplier(target) > -0.005
    ensures s.win && bet < 0.0 ==> s.payout - bet * Multiplier(target) < 0.005
    ensures (s.payout * 100.0).Floor as real == s.payout * 100.0
    ensures bet > 0.0 ==> s.payout >= 0.0
  {
    if number <= target then
      MultiplierPositive(target);
      Round2NonNegative(if bet > 0.0 then bet * Multiplier(target) else 0.0);
      Settlement(true, Round2(bet * Multiplier(target)))
    else Settlement(false, 0.0)
  }

  /** The record DiceGame#play returns. */
  datatype Round = Round(win: bool, number: int, serverSeed: string, nonce: int,
                         payout: real, target: int, bet: real)

  /** The round played with the given seeds and nonce (the nonce already
      advanced), target and bet. */
  function Outcome(sha512: Sha512, serverSeed: string, clientSeed: string, nonce: int,
                   target: int, bet: real): (r: Round)
    requires 1 <= target <= 99
    ensures r.number == Roll(sha512, serverSeed, clientSeed, nonce)
    ensures 1 <= r.number <= 100
    ensures r.win <==> r.number <= target
    ensures r.serverSeed == serverSeed && r.nonce == nonce
    ensures r.target == target && r.bet == bet
    ensures !r.win ==> r.payout == 0.0
    ensures r.win ==> r.payout == Round2(bet * Multiplier(target))
  {
    var number := Roll(sha512, serverSeed, clientSeed, nonce);
    var s := Settle(number, target, bet);
    Round(s.win, number, serverSeed, nonce, s.payout, target, bet)
  }

  /** Any round passes verification with its own server seed, nonce and
      number and the client seed it was played with, whatever bet is given. */
  lemma OutcomeVerifies(sha512: Sha512, serverSeed: string, clientSeed: string, nonce: int,
                        target: int, bet: real, anyBet: int)
    requires 1 <= target <= 99
    ensures var r := Outcome(sha512, serverSeed, clientSeed, nonce, target, bet);
      Verify(sha512, r.serverSeed, clientSeed, anyBet, r.nonce, r.number)
  {
  }

  // --------------------------------------------- the message is unambiguous

  /** Splitting at the last ':' recovers both parts when the tail has none. */
  lemma {:induction false} SplitAtLastColon(a1: string, d1: string, a2: string, d2: string)
    requires ':' !in d1 && ':' !in d2
    requires a1 + ":" + d1 == a2 + ":" + d2
    ensures a1 == a2 && d1 == d2
  {
    var m := a1 + ":" + d1;
    assert m == a2 + ":" + d2;
    assert m[|a1|] == ':' && m[|a2|] == ':';
    forall j | |a1| < j < |m|
      ensures m[j] != ':'
    {
      assert m[j] == d1[j - |a1| - 1];
    }
    forall j | |a2| < j < |m|
      ensures m[j] != ':'
    {
      assert m[j] == d2[j - |a2| - 1];
    }
    assert |a1| == |a2|;
    assert a1 == m[..|a1|] == a2;
    assert d1 == m[|a1| + 1..] == d2;
  }

  /** Splitting at the first ':' recovers both parts when the head has none. */
  lemma {:induction false} SplitAtFirstColon(s1: string, r1: string, s2: string, r2: string)
    requires ':' !in s1 && ':' !in s2
    requires s1 + ":" + r1 == s2 + ":" + r2
    ensures s1 == s2 && r1 == r2
  {
    var m := s1 + ":" + r1;
    assert m == s2 + ":" + r2;
    assert m[|s1|] == ':' && m[|s2|] == ':';
    forall j | 0 <= j < |s1|
      ensures m[j] != ':'
    {
      assert m[j] == s1[j];
    }
    forall j | 0 <= j < |s2|
      ensures m[j] != ':'
    {
      assert m[j] == s2[j];
    }
    assert |s1| == |s2|;
    assert s1 == m[..|s1|] == s2;
    assert r1 == m[|s1| + 1..] == r2;
  }

  /** Under one server seed, the hashed message determines the client seed
      and the nonce: rounds with different nonces hash different texts. */
  lemma MessageDeterminesRound(serverSeed: string, c1: string, n1: int, c2: string, n2: int)
    requires Message(serverSeed, c1, n1) == Message(serverSeed, c2, n2)
    ensures c1 == c2 && n1 == n2
  {
    var a1, a2 := serverSeed + ":" + c1, serverSeed + ":" + c2;
    SplitAtLastColon(a1, IntToDecimal(n1), a2, IntToDecimal(n2));
    IntToDecimalInjective(n1, n2);
    assert c1 == a1[|serverSeed| + 1..];
    assert c2 == a2[|serverSeed| + 1..];
  }

  /** With colon-free server seeds (every seed SecureRandom.hex produces),
      the message determines all three inputs. */
  lemma MessageInjective(s1: string, c1: string, n1: int, s2: string, c2: string, n2: int)
    requires ':' !in s1 && ':' !in s2
    requires Message(s1, c1, n1) == Message(s2, c2, n2)
    ensures s1 == s2 && c1 == c2 && n1 == n2
  {
    SplitAtLastColon(s1 + ":" + c1, IntToDecimal(n1), s2 + ":" + c2, IntToDecimal(n2));
    SplitAtFirstColon(s1, c1, s2, c2);
    IntToDecimalInjective(n1, n2);
  }
}
