/**
 * The key schema of the cache: `tokens:<token>` holds the user id a session
 * token resolves to, `profiles:<userId>` holds the profile hash.
 */
module Keys {
  import opened Wrappers
  import opened Numerals

  /** A System.Guid, as the 128-bit number its "N" format spells out. */
  type Guid = g: nat | g < 0x1_0000_0000_0000_0000_0000_0000_0000_0000

  const TokenPrefix: string := "tokens:"
  const ProfilePrefix: string := "profiles:"

  lemma GuidBound(g: Guid)
    ensures g < Pow(16, 32)
  {
    assert Pow(16, 32) == 0x1_0000_0000_0000_0000_0000_0000_0000_0000 by {
      assert Pow(16, 8) == 0x1_0000_0000;
      assert Pow(16, 16) == Pow(16, 8) * Pow(16, 8) by { PowAdd(16, 8, 8); }
      assert Pow(16, 32) == Pow(16, 16) * Pow(16, 16) by { PowAdd(16, 16, 16); }
    }
  }

  lemma {:induction false} PowAdd(b: nat, v: nat, w: nat)
    ensures Pow(b, v + w) == Pow(b, v) * Pow(b, w)
  {
    if v > 0 {
      PowAdd(b, v - 1, w);
      assert Pow(b, v + w) == b * Pow(b, v - 1 + w);
    }
  }

  /** Guid.ToString("N"): 32 lower-case hexadecimal digits, no separators. */
  function GuidN(g: Guid): (s: string)
    ensures |s| == 32 && AllDigits(s, 16)
    ensures ValueOf(s, 16) == g
  {
    GuidBound(g);
    Fixed(g, 16, 32)
  }

  /** The key format `tokens:{0}` applied to the token's "N" form. */
  function TokenKey(token: Guid): (k: string)
    ensures |k| == |TokenPrefix| + 32 && k[..|TokenPrefix|] == TokenPrefix
    ensures k[|TokenPrefix|..] == GuidN(token)
  {
    var k := TokenPrefix + GuidN(token);
    assert k[|TokenPrefix|..] == GuidN(token);
    k
  }

  /** The key format `profiles:{0}` applied to the user id's decimal form. */
  function ProfileKey(userId: Long): (k: string)
    ensures |k| > |ProfilePrefix| && k[..|ProfilePrefix|] == ProfilePrefix
    ensures k[|ProfilePrefix|..] == FormatLong(userId)
  {
    var k := ProfilePrefix + FormatLong(userId);
    assert k[|ProfilePrefix|..] == FormatLong(userId);
    k
  }

  /** The text after the profile prefix parses back to the user id. */
  lemma ProfileKeyReadsBack(userId: Long)
    ensures ParseLong(ProfileKey(userId)[|ProfilePrefix|..]) == Some(userId)
  {
    ParseFormatLong(userId);
  }

  /** Each token has its own key. */
  lemma TokenKeyInjective(a: Guid, b: Guid)
    ensures TokenKey(a) == TokenKey(b) <==> a == b
  {
    if TokenKey(a) == TokenKey(b) {
      assert GuidN(a) == TokenKey(a)[|TokenPrefix|..];
      assert GuidN(b) == TokenKey(b)[|TokenPrefix|..];
    }
  }

  /** Each user id has its own profile key. */
  lemma ProfileKeyInjective(a: Long, b: Long)
    ensures ProfileKey(a) == ProfileKey(b) <==> a == b
  {
    if ProfileKey(a) == ProfileKey(b) {
      assert FormatLong(a) == ProfileKey(a)[|ProfilePrefix|..];
      assert FormatLong(b) == ProfileKey(b)[|ProfilePrefix|..];
      FormatLongInjective(a, b);
    }
  }

  /** No token key is a profile key: the prefixes differ in their first letter. */
  lemma TokenAndProfileKeysDisjoint(t: Guid, u: Long)
    ensures TokenKey(t) != ProfileKey(u)
  {
    assert TokenKey(t)[0] == 't';
    assert ProfileKey(u)[0] == 'p';
  }
}
