/** The table of snippets (DataMapper over sqlite in the source) as an object holding a
    map from id to record, with the queries the handlers make of it. */
module Store {
  import opened Wrappers
  import opened Snippets

  /** The 36 id characters, `a` to `z` then `0` to `9`, in the order the random
      indexes pick them (toopaste.rb:150). */
  const Alphabet: string := "abcdefghijklmnopqrstuvwxyz0123456789"

  predicate IdChar(c: char) {
    ('a' <= c <= 'z') || ('0' <= c <= '9')
  }

  /** An id as the create handler draws it: four characters of the alphabet. */
  predicate WellFormedId(id: string) {
    |id| == 4 && forall i | 0 <= i < |id| :: IdChar(id[i])
  }

  /** Four random indexes into the alphabet, each below its length 36. */
  predicate ValidDraw(d: seq<int>) {
    |d| == 4 && forall k | 0 <= k < 4 :: 0 <= d[k] < 36
  }

  /** The id built from four random indexes: the alphabet character at each index, in
      draw order. */
  function IdFromDraw(d: seq<int>): (id: string)
    requires ValidDraw(d)
    ensures WellFormedId(id)
  {
    AlphabetIsIdChars();
    var id := [Alphabet[d[0]], Alphabet[d[1]], Alphabet[d[2]], Alphabet[d[3]]];
    assert IdChar(id[0]) && IdChar(id[1]) && IdChar(id[2]) && IdChar(id[3]);
    id
  }

  lemma AlphabetIsIdChars()
    ensures |Alphabet| == 36
    ensures forall k | 0 <= k < |Alphabet| :: IdChar(Alphabet[k])
  {
  }

  /** Every well-formed id can be drawn: the draws cover the whole key space. */
  lemma EveryIdDrawable(id: string)
    requires WellFormedId(id)
    ensures exists d :: ValidDraw(d) && IdFromDraw(d) == id
  {
    var d := seq(4, k requires 0 <= k < 4 => AlphabetIndex(id[k]));
    assert ValidDraw(d);
    assert IdFromDraw(d) == id;
  }

  function AlphabetIndex(c: char): (k: int)
    requires IdChar(c)
    ensures 0 <= k < |Alphabet| && Alphabet[k] == c
  {
    if 'a' <= c <= 'z' then c as int - 'a' as int else 26 + c as int - '0' as int
  }

  class SnippetStore {
    var snippets: map<string, Snippet>

    /** Each record is stored under its own id; every id was drawn by the create
        handler; every record passed the body-required validation. */
    ghost predicate Valid()
      reads this
    {
      forall id | id in snippets :: snippets[id].randomId == id && WellFormedId(id) && snippets[id].body != ""
    }

    constructor ()
      ensures Valid() && snippets == map[]
    {
      snippets := map[];
    }

    /** Saving a new record under a fresh key. */
    method Insert(s: Snippet)
      requires Valid()
      requires WellFormedId(s.randomId) && s.body != "" && s.randomId !in snippets
      modifies this
      ensures Valid()
      ensures snippets == old(snippets)[s.randomId := s]
    {
      snippets := snippets[s.randomId := s];
    }

    /** `Snippet#destroy`: the record's key is removed and nothing else changes. */
    method Destroy(id: string)
      requires Valid()
      modifies this
      ensures Valid()
      ensures snippets == old(snippets) - {id}
    {
      snippets := snippets - {id};
    }

    /** The id loop of the create handler (toopaste.rb:150-151): `Snippet.get` on each
        drawn candidate until one is not in the store. The source draws without bound;
        here the draws are given and may run out. */
    method AllocateId(draws: seq<seq<int>>) returns (r: Option<string>)
      requires forall i | 0 <= i < |draws| :: ValidDraw(draws[i])
      ensures r.Some? ==> WellFormedId(r.value) && r.value !in snippets
      ensures r.Some? ==> exists k | 0 <= k < |draws| ::
                r.value == IdFromDraw(draws[k]) &&
                forall j | 0 <= j < k :: IdFromDraw(draws[j]) in snippets
      ensures r.None? <==> forall i | 0 <= i < |draws| :: IdFromDraw(draws[i]) in snippets
    {
      var k := 0;
      while k < |draws|
        invariant 0 <= k <= |draws|
        invariant forall j | 0 <= j < k :: IdFromDraw(draws[j]) in snippets
      {
        var candidate := IdFromDraw(draws[k]);
        if candidate !in snippets {
          r := Some(candidate);
          assert candidate == IdFromDraw(draws[k]) && forall j | 0 <= j < k :: IdFromDraw(draws[j]) in snippets;
          return;
        }
        k := k + 1;
      }
      return None;
    }

    function PublicIds(): set<string>
      reads this
    {
      set id | id in snippets && snippets[id].visibility == Public
    }

    /** A most recently created snippet among `ids`. */
    method Newest(ids: set<string>) returns (best: string)
      requires ids != {} && ids <= snippets.Keys
      ensures best in ids
      ensures forall id | id in ids :: snippets[id].createdAt <= snippets[best].createdAt
    {
      best :| best in ids;
      var rest := ids - {best};
      while rest != {}
        invariant rest <= ids && best in ids
        invariant forall id | id in ids - rest :: snippets[id].createdAt <= snippets[best].createdAt
        decreases |rest|
      {
        var x :| x in rest;
        if snippets[x].createdAt > snippets[best].createdAt {
          best := x;
        }
        rest := rest - {x};
      }
    }

    /** The front page's query for recent pastes (toopaste.rb:131): public snippets only, newest first, as many as the limit allows;
        a public snippet left out is no newer than the last one listed. */
    method PublicListing(limit: nat) returns (r: seq<Snippet>)
      requires Valid()
      ensures |r| == if limit < |PublicIds()| then limit else |PublicIds()|
      ensures forall i | 0 <= i < |r| ::
                r[i].randomId in snippets && snippets[r[i].randomId] == r[i] && r[i].visibility == Public
      ensures forall i, j | 0 <= i < j < |r| :: r[i].randomId != r[j].randomId
      ensures forall i, j | 0 <= i < j < |r| :: r[i].createdAt >= r[j].createdAt
      ensures |r| > 0 ==> forall id | id in PublicIds() && !Listed(r, id) ::
                snippets[id].createdAt <= r[|r| - 1].createdAt
    {
      var remaining := PublicIds();
      r := [];
      while |r| < limit && remaining != {}
        invariant |r| <= limit
        invariant remaining <= PublicIds()
        invariant |remaining| + |r| == |PublicIds()|
        invariant forall id | id in PublicIds() :: id in remaining <==> !Listed(r, id)
        invariant PublicFromStore(snippets, r) && DistinctIds(r) && NewestFirst(r)
        invariant |r| > 0 ==> forall id | id in remaining :: snippets[id].createdAt <= r[|r| - 1].createdAt
        decreases limit - |r|
      {
        var id := Newest(remaining);
        ListingStep(snippets, r, remaining, id);
        r := r + [snippets[id]];
        remaining := remaining - {id};
      }
    }
  }

  ghost predicate Listed(r: seq<Snippet>, id: string) {
    exists i | 0 <= i < |r| :: r[i].randomId == id
  }

  ghost predicate PublicFromStore(m: map<string, Snippet>, r: seq<Snippet>) {
    forall i | 0 <= i < |r| :: r[i].randomId in m && m[r[i].randomId] == r[i] && r[i].visibility == Public
  }

  ghost predicate DistinctIds(r: seq<Snippet>) {
    forall i, j | 0 <= i < j < |r| :: r[i].randomId != r[j].randomId
  }

  ghost predicate NewestFirst(r: seq<Snippet>) {
    forall i, j | 0 <= i < j < |r| :: r[i].createdAt >= r[j].createdAt
  }

  /** One step of the listing loop: appending the newest of the unlisted public
      snippets keeps the listing drawn from the store, duplicate-free and newest first. */
  lemma ListingStep(m: map<string, Snippet>, r: seq<Snippet>, remaining: set<string>, id: string)
    requires id in remaining && remaining <= m.Keys && m[id].randomId == id && m[id].visibility == Public
    requires forall x | x in remaining :: m[x].createdAt <= m[id].createdAt
    requires forall x | x in remaining :: !Listed(r, x)
    requires PublicFromStore(m, r) && DistinctIds(r) && NewestFirst(r)
    requires |r| > 0 ==> forall x | x in remaining :: m[x].createdAt <= r[|r| - 1].createdAt
    ensures PublicFromStore(m, r + [m[id]]) && DistinctIds(r + [m[id]]) && NewestFirst(r + [m[id]])
    ensures forall x :: Listed(r + [m[id]], x) <==> Listed(r, x) || x == id
  {
    var r' := r + [m[id]];
    forall x ensures Listed(r', x) <==> Listed(r, x) || x == id {
      if Listed(r, x) {
        var i :| 0 <= i < |r| && r[i].randomId == x;
        assert r'[i] == r[i];
      }
      if x == id {
        assert r'[|r|].randomId == id;
      }
      if Listed(r', x) {
        var i :| 0 <= i < |r'| && r'[i].randomId == x;
        if i < |r| { assert r[i].randomId == x; }
      }
    }
    forall i | 0 <= i < |r| ensures r[i].randomId != id {
      assert !Listed(r, id);
    }
  }
}
