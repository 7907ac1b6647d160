/**
  Random slug generation in `create_link` (backend/src/main.rs, lines 70-93).
  The random number generator is replaced by its output: each draw is the four
  indices `rng.gen_range(0..CHARSET.len())` would return for one candidate.
 */
module Slugs {
  import opened Wrappers

  /** `CHARSET`: the ten digits, then the lower-case letters. */
  const Charset: string := "1234567890abcdefghijklmnopqrstuvwxyz"
  const SlugLength: nat := 4

  /** A value of `gen_range(0..CHARSET.len())`. */
  type CharIndex = i: nat | i < 36

  /** The indices drawn for one candidate slug. */
  type Draw = d: seq<CharIndex> | |d| == 4 witness [0, 0, 0, 0]

  /** A string the generator can produce: four characters of the alphabet. */
  predicate IsGeneratedSlug(s: string)
  {
    |s| == SlugLength && forall c :: c in s ==> c in Charset
  }

  /** The candidate slug a draw spells. */
  function Candidate(d: Draw): (s: string)
    ensures IsGeneratedSlug(s)
  {
    seq(SlugLength, i requires 0 <= i < SlugLength => Charset[d[i]])
  }

  /** The generator can produce every slug over the alphabet. */
  lemma EverySlugIsDrawable(s: string)
    requires IsGeneratedSlug(s)
    ensures exists d: Draw :: Candidate(d) == s
  {
    assert s[0] in Charset && s[1] in Charset && s[2] in Charset && s[3] in Charset;
    var k0 :| 0 <= k0 < 36 && Charset[k0] == s[0];
    var k1 :| 0 <= k1 < 36 && Charset[k1] == s[1];
    var k2 :| 0 <= k2 < 36 && Charset[k2] == s[2];
    var k3 :| 0 <= k3 < 36 && Charset[k3] == s[3];
    var d: Draw := [k0, k1, k2, k3];
    assert Candidate(d) == s;
  }

  /**
    The slug the retry loop settles on: the candidate of the first draw that is
    not already taken, or None when every draw in the budget collides.
   */
  function FirstFree(taken: set<string>, draws: seq<Draw>): (r: Option<string>)
    ensures r.Some? ==> IsGeneratedSlug(r.value) && r.value !in taken
    ensures r.Some? ==> exists k :: (0 <= k < |draws| && r.value == Candidate(draws[k])
                                     && forall j :: 0 <= j < k ==> Candidate(draws[j]) in taken)
    ensures r.None? <==> forall k :: 0 <= k < |draws| ==> Candidate(draws[k]) in taken
  {
    if |draws| == 0 then None
    else if Candidate(draws[0]) !in taken then Some(Candidate(draws[0]))
    else
      var r := FirstFree(taken, draws[1..]);
      assert forall k :: 1 <= k < |draws| ==> draws[k] == draws[1..][k - 1];
      r
  }
}
