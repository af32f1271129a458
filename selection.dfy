/** Properties of the S3 key selection (`Resume.Select`) that the pipelines' list
    comprehensions rely on beyond membership: order and repeats are kept. */
module Selection {
  import opened Resume

  /** The selection keeps the listing's order: selecting from two listings one after
      the other is selecting from their concatenation. */
  lemma {:induction false} SelectAppend(a: seq<string>, b: seq<string>, ok: string -> bool)
    ensures Select(a + b, ok) == Select(a, ok) + Select(b, ok)
    decreases |a|
  {
    if a == [] {
      assert a + b == b;
    } else {
      assert (a + b)[0] == a[0];
      assert (a + b)[1..] == a[1..] + b;
      SelectAppend(a[1..], b, ok);
    }
  }

  /** Repeats are kept: each wanted key occurs in the selection as often as it is
      listed, and each other key not at all. */
  lemma {:induction false} SelectCounts(keys: seq<string>, ok: string -> bool, k: string)
    ensures multiset(Select(keys, ok))[k] == if ok(k) then multiset(keys)[k] else 0
    decreases |keys|
  {
    if keys != [] {
      assert keys == [keys[0]] + keys[1..];
      SelectCounts(keys[1..], ok, k);
    }
  }
}
