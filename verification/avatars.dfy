/**
  The avatar picker of src/lib/avatars.ts: the nick's hash, taken in
  absolute value modulo the size of a fixed pool of default pictures.
*/
module Avatars {
  import opened Hashing

  const CdnPrefix: string := "https://hc-cdn.hel1.your-objectstorage.com/s/v3/"

  /** DEFAULT_AVATARS. */
  const DefaultAvatars: seq<string> := [
    CdnPrefix + "4183627c4d26c56c915e104a8a7374f43acd1733_pfp__1_.png",
    CdnPrefix + "389b1e6bd4248a7e5dd88e14c1adb8eb01267080_pfp__2_.png",
    CdnPrefix + "03011a5e59548191de058f33ccd1d1cb1d64f2a0_pfp__3_.png",
    CdnPrefix + "f9c57b88fbd4633114c1864bcc2968db555dbd2a_pfp__4_.png",
    CdnPrefix + "e61a8cabee5a749588125242747b65122fb94205_pfp.png"
  ]

  predicate IsHttps(url: string) {
    "https://" <= url
  }

  /** The slot of the pool a nick gets: `Math.abs(hash) % 5`. */
  function AvatarIndex(nick: string): (i: nat)
    ensures i < |DefaultAvatars|
  {
    Abs(Hash(nick)) % |DefaultAvatars|
  }

  /** Every picture of the pool is an https URL. */
  lemma PoolIsHttps()
    ensures forall k :: 0 <= k < |DefaultAvatars| ==> IsHttps(DefaultAvatars[k])
  {
    assert "https://" <= CdnPrefix;
    forall k | 0 <= k < |DefaultAvatars|
      ensures IsHttps(DefaultAvatars[k])
    {
      assert DefaultAvatars[k][..|CdnPrefix|] == CdnPrefix;
    }
  }

  /** `getAvatarForNick`: the loop of the shared hash, then the pool slot.
      The answer is always a picture of the pool and an https URL. */
  method GetAvatarForNick(nick: string) returns (url: string)
    ensures url == DefaultAvatars[AvatarIndex(nick)]
    ensures url in DefaultAvatars
    ensures IsHttps(url)
  {
    var hash := HashLoop(nick);
    url := DefaultAvatars[Abs(hash) % |DefaultAvatars|];
    PoolIsHttps();
  }

  /** The slot against the reference polynomial of the code units: the
      same wrap-around as the thread ids. */
  lemma AvatarIndexIsPoly(nick: string)
    ensures AvatarIndex(nick) == Abs(ToInt32(Poly(CodeUnits(nick)))) % 5
  {
    HashIsPoly(CodeUnits(nick));
  }

  /** The empty nick hashes to 0 and gets the first picture. */
  lemma EmptyNick(nick: string)
    requires nick == ""
    ensures AvatarIndex(nick) == 0
    ensures DefaultAvatars[AvatarIndex(nick)] == DefaultAvatars[0]
  {
    assert CodeUnits(nick) == [];
  }

  /** Two nicks of the tests land in different slots of the pool. */
  lemma DistinctExamples(a: string, b: string)
    requires a == "alice" && b == "bob"
    ensures AvatarIndex(a) == 0 && AvatarIndex(b) == 2
  {
    HashOfAlice(a);
    HashOfBob(b);
  }
}
