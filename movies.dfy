/**
 * The liked-movies reducer of src/modules/movies/store/reducers/movies.ts.
 *
 * The reducer's state is the ordered list of liked movies; it behaves as an
 * insertion-ordered set keyed by `imdbID`. Everything here is pure: the source
 * builds every new state with `some`, `concat` and `filter` and mutates nothing.
 */
module Movies {

  /** A catalog entry. Only `imdbID` is ever inspected; the other fields ride along untouched. */
  datatype Movie = Movie(imdbID: string, rest: map<string, string>)

  /**
   * What the reducer can be handed. The source takes an untyped `{ type, payload }`,
   * so besides the two known kinds there is every other action type.
   */
  datatype Action = Like(payload: Movie) | Unlike(payload: Movie) | Other(kind: string)

  /** Some element of `s` carries identifier `id`. */
  ghost predicate HasId(s: seq<Movie>, id: string) {
    exists i :: 0 <= i < |s| && s[i].imdbID == id
  }

  /** No two elements of `s` share an identifier. */
  ghost predicate Unique(s: seq<Movie>) {
    forall i, j :: 0 <= i < j < |s| ==> s[i].imdbID != s[j].imdbID
  }

  /** `s.some(m => m.imdbID === id)`: a left-to-right scan. */
  function ContainsId(s: seq<Movie>, id: string): (r: bool)
    ensures r <==> HasId(s, id)
  {
    if s == [] then false
    else
      HasIdCons(s, id);
      s[0].imdbID == id || ContainsId(s[1..], id)
  }

  /** Membership splits into the head and the tail. */
  lemma HasIdCons(s: seq<Movie>, id: string)
    requires s != []
    ensures HasId(s, id) <==> s[0].imdbID == id || HasId(s[1..], id)
  {
    if HasId(s[1..], id) {
      var i :| 0 <= i < |s[1..]| && s[1..][i].imdbID == id;
      assert s[i + 1].imdbID == id;
    }
    if HasId(s, id) && s[0].imdbID != id {
      var i :| 0 <= i < |s| && s[i].imdbID == id;
      assert s[1..][i - 1].imdbID == id;
    }
  }

  /** `s.filter(m => m.imdbID !== id)`. */
  function WithoutId(s: seq<Movie>, id: string): (r: seq<Movie>)
    ensures |r| <= |s|
    ensures forall x :: x in r <==> x in s && x.imdbID != id
  {
    if s == [] then []
    else if s[0].imdbID == id then WithoutId(s[1..], id)
    else [s[0]] + WithoutId(s[1..], id)
  }

  /** How many elements of `s` carry identifier `id`. */
  function CountId(s: seq<Movie>, id: string): (n: nat)
    ensures n <= |s|
    ensures n == 0 <==> !HasId(s, id)
  {
    if s == [] then 0
    else
      HasIdCons(s, id);
      (if s[0].imdbID == id then 1 else 0) + CountId(s[1..], id)
  }

  /**
   * The `movies` reducer, restricted to its `likedMovies` field (the only field
   * of its state). Like appends unless the identifier is already present, Unlike
   * drops every element with the identifier, anything else is the identity.
   */
  function Reduce(liked: seq<Movie>, action: Action): (r: seq<Movie>)
    ensures action.Like? && HasId(liked, action.payload.imdbID) ==> r == liked
    ensures action.Like? && !HasId(liked, action.payload.imdbID) ==>
              |r| == |liked| + 1 && r[..|liked|] == liked && r[|liked|] == action.payload
    ensures action.Unlike? ==> !HasId(r, action.payload.imdbID)
    ensures action.Unlike? ==> forall x :: x in r <==> x in liked && x.imdbID != action.payload.imdbID
    ensures action.Other? ==> r == liked
  {
    match action
    case Like(m) => if ContainsId(liked, m.imdbID) then liked else liked + [m]
    case Unlike(m) => WithoutId(liked, m.imdbID)
    case Other(_) => liked
  }

  /** The state reached by feeding `actions` to the reducer one after another. */
  function ReduceAll(liked: seq<Movie>, actions: seq<Action>): seq<Movie>
    decreases |actions|
  {
    if actions == [] then liked else ReduceAll(Reduce(liked, actions[0]), actions[1..])
  }

  /** Liking twice is liking once; the stored copy is kept, not refreshed. */
  lemma LikeIdempotent(liked: seq<Movie>, m: Movie)
    ensures Reduce(Reduce(liked, Like(m)), Like(m)) == Reduce(liked, Like(m))
  {
    var once := Reduce(liked, Like(m));
    if !HasId(liked, m.imdbID) {
      assert once[|liked|].imdbID == m.imdbID;
    }
  }

  /** Filtering distributes over concatenation. */
  lemma {:induction false} WithoutIdConcat(a: seq<Movie>, b: seq<Movie>, id: string)
    ensures WithoutId(a + b, id) == WithoutId(a, id) + WithoutId(b, id)
  {
    if a == [] {
      assert a + b == b;
    } else {
      assert (a + b)[1..] == a[1..] + b;
      WithoutIdConcat(a[1..], b, id);
    }
  }

  /** Unliking a movie whose identifier is not in the list changes nothing. */
  lemma {:induction false} UnlikeAbsentIsNoop(liked: seq<Movie>, m: Movie)
    requires !HasId(liked, m.imdbID)
    ensures Reduce(liked, Unlike(m)) == liked
  {
    if liked != [] {
      HasIdCons(liked, m.imdbID);
      UnlikeAbsentIsNoop(liked[1..], m);
      assert [liked[0]] + liked[1..] == liked;
    }
  }

  /** Like then Unlike of a movie not yet in the list gives the list back. */
  lemma LikeThenUnlikeRestores(liked: seq<Movie>, m: Movie)
    requires !HasId(liked, m.imdbID)
    ensures Reduce(Reduce(liked, Like(m)), Unlike(m)) == liked
  {
    WithoutIdConcat(liked, [m], m.imdbID);
    UnlikeAbsentIsNoop(liked, m);
    assert WithoutId([m], m.imdbID) == [];
  }

  /**
   * `idx` lists, in increasing order, the positions of `s` that make up `r`:
   * exactly the positions whose element does not carry `id`.
   */
  ghost predicate SelectsSurvivors(s: seq<Movie>, id: string, r: seq<Movie>, idx: seq<nat>) {
    && |idx| == |r|
    && (forall k :: 0 <= k < |idx| ==> idx[k] < |s| && r[k] == s[idx[k]] && s[idx[k]].imdbID != id)
    && (forall k, l :: 0 <= k < l < |idx| ==> idx[k] < idx[l])
    && (forall j :: 0 <= j < |s| && s[j].imdbID != id ==> j in idx)
  }

  /** Every position moved one step to the right. */
  function Shift(idx: seq<nat>): (r: seq<nat>)
    ensures |r| == |idx|
    ensures forall k :: 0 <= k < |idx| ==> r[k] == idx[k] + 1
  {
    seq(|idx|, k requires 0 <= k < |idx| => idx[k] + 1)
  }

  /** A selection from the tail of `s` is, shifted, a selection from `s` when the head carries `id`. */
  lemma DropHeadSelects(s: seq<Movie>, id: string, tail: seq<Movie>, tailIdx: seq<nat>)
    requires s != [] && s[0].imdbID == id
    requires SelectsSurvivors(s[1..], id, tail, tailIdx)
    ensures SelectsSurvivors(s, id, tail, Shift(tailIdx))
  {
    var shifted := Shift(tailIdx);
    assert forall k :: 0 <= k < |shifted| ==> shifted[k] < |s| && tail[k] == s[shifted[k]] && s[shifted[k]].imdbID != id by {
      forall k | 0 <= k < |shifted|
        ensures shifted[k] < |s| && tail[k] == s[shifted[k]] && s[shifted[k]].imdbID != id
      {
        assert s[1..][tailIdx[k]] == s[shifted[k]];
      }
    }
    assert forall j :: 0 <= j < |s| && s[j].imdbID != id ==> j in shifted by {
      forall j | 0 <= j < |s| && s[j].imdbID != id
        ensures j in shifted
      {
        assert s[1..][j - 1] == s[j];
        var k :| 0 <= k < |tailIdx| && tailIdx[k] == j - 1;
        assert shifted[k] == j;
      }
    }
  }

  /** A selection from the tail of `s` is, shifted and preceded by 0, a selection from `s` when the head survives. */
  lemma KeepHeadSelects(s: seq<Movie>, id: string, tail: seq<Movie>, tailIdx: seq<nat>)
    requires s != [] && s[0].imdbID != id
    requires SelectsSurvivors(s[1..], id, tail, tailIdx)
    ensures SelectsSurvivors(s, id, [s[0]] + tail, [0] + Shift(tailIdx))
  {
    KeepHeadPositions(s, id, tail, tailIdx);
    KeepHeadIncreasing(tailIdx);
    KeepHeadCovers(s, id, tail, tailIdx);
  }

  /** The kept head sits at position 0; every later position points one step further into `s`. */
  lemma KeepHeadPositions(s: seq<Movie>, id: string, tail: seq<Movie>, tailIdx: seq<nat>)
    requires s != [] && s[0].imdbID != id
    requires SelectsSurvivors(s[1..], id, tail, tailIdx)
    ensures var idx, r := [0] + Shift(tailIdx), [s[0]] + tail;
      forall k :: 0 <= k < |idx| ==> idx[k] < |s| && r[k] == s[idx[k]] && s[idx[k]].imdbID != id
  {
    var idx, r := [0] + Shift(tailIdx), [s[0]] + tail;
    forall k | 0 <= k < |idx|
      ensures idx[k] < |s| && r[k] == s[idx[k]] && s[idx[k]].imdbID != id
    {
      if k > 0 {
        assert idx[k] == tailIdx[k - 1] + 1 && r[k] == tail[k - 1];
        assert s[1..][tailIdx[k - 1]] == s[idx[k]];
      }
    }
  }

  /** Prefixing 0 to shifted increasing positions keeps them increasing. */
  lemma KeepHeadIncreasing(tailIdx: seq<nat>)
    requires forall k, l :: 0 <= k < l < |tailIdx| ==> tailIdx[k] < tailIdx[l]
    ensures var idx := [0] + Shift(tailIdx);
      forall k, l :: 0 <= k < l < |idx| ==> idx[k] < idx[l]
  {
    var idx := [0] + Shift(tailIdx);
    forall k, l | 0 <= k < l < |idx|
      ensures idx[k] < idx[l]
    {
      assert idx[l] == tailIdx[l - 1] + 1;
      if k > 0 {
        assert idx[k] == tailIdx[k - 1] + 1;
      }
    }
  }

  /** Every surviving position of `s` is listed once the head's 0 is added. */
  lemma KeepHeadCovers(s: seq<Movie>, id: string, tail: seq<Movie>, tailIdx: seq<nat>)
    requires s != [] && s[0].imdbID != id
    requires SelectsSurvivors(s[1..], id, tail, tailIdx)
    ensures var idx := [0] + Shift(tailIdx);
      forall j :: 0 <= j < |s| && s[j].imdbID != id ==> j in idx
  {
    var idx := [0] + Shift(tailIdx);
    forall j | 0 <= j < |s| && s[j].imdbID != id
      ensures j in idx
    {
      if j > 0 {
        assert s[1..][j - 1] == s[j];
        var k :| 0 <= k < |tailIdx| && tailIdx[k] == j - 1;
        assert idx[k + 1] == j;
      }
    }
  }

  /** Unlike is a stable filter: survivors keep their relative order, and only the unliked identifier goes. */
  lemma {:induction false} UnlikeIsStableFilter(liked: seq<Movie>, m: Movie) returns (idx: seq<nat>)
    ensures SelectsSurvivors(liked, m.imdbID, Reduce(liked, Unlike(m)), idx)
  {
    if liked == [] {
      idx := [];
    } else {
      var tailIdx := UnlikeIsStableFilter(liked[1..], m);
      var tail := Reduce(liked[1..], Unlike(m));
      if liked[0].imdbID == m.imdbID {
        DropHeadSelects(liked, m.imdbID, tail, tailIdx);
        idx := Shift(tailIdx);
      } else {
        KeepHeadSelects(liked, m.imdbID, tail, tailIdx);
        idx := [0] + Shift(tailIdx);
      }
    }
  }

  /** A like or unlike never introduces a duplicate identifier. */
  lemma UniquePreserved(liked: seq<Movie>, action: Action)
    requires Unique(liked)
    ensures Unique(Reduce(liked, action))
  {
    if action.Unlike? {
      var idx := UnlikeIsStableFilter(liked, action.payload);
    }
  }

  /** Uniqueness holds along any run of the reducer that starts from a duplicate-free list. */
  lemma {:induction false} UniqueAlongRun(liked: seq<Movie>, actions: seq<Action>)
    requires Unique(liked)
    ensures Unique(ReduceAll(liked, actions))
    decreases |actions|
  {
    if actions != [] {
      UniquePreserved(liked, actions[0]);
      UniqueAlongRun(Reduce(liked, actions[0]), actions[1..]);
    }
  }

  /** In a duplicate-free list an identifier occurs at most once. */
  lemma {:induction false} UniqueCountAtMostOne(s: seq<Movie>, id: string)
    requires Unique(s)
    ensures CountId(s, id) <= 1
  {
    if s != [] {
      assert Unique(s[1..]);
      UniqueCountAtMostOne(s[1..], id);
      if s[0].imdbID == id {
        forall i | 0 <= i < |s[1..]|
          ensures s[1..][i].imdbID != id
        {
          assert s[1..][i] == s[i + 1];
        }
      }
    }
  }

  /** Counting distributes over concatenation. */
  lemma {:induction false} CountIdConcat(a: seq<Movie>, b: seq<Movie>, id: string)
    ensures CountId(a + b, id) == CountId(a, id) + CountId(b, id)
  {
    if a == [] {
      assert a + b == b;
    } else {
      assert (a + b)[1..] == a[1..] + b;
      CountIdConcat(a[1..], b, id);
    }
  }

  /** After a like of a duplicate-free list the identifier occurs exactly once; after an unlike, not at all. */
  lemma CountAfterAction(liked: seq<Movie>, m: Movie)
    requires Unique(liked)
    ensures CountId(Reduce(liked, Like(m)), m.imdbID) == 1
    ensures CountId(Reduce(liked, Unlike(m)), m.imdbID) == 0
  {
    if HasId(liked, m.imdbID) {
      UniqueCountAtMostOne(liked, m.imdbID);
    } else {
      CountIdConcat(liked, [m], m.imdbID);
      assert CountId([m], m.imdbID) == 1 by {
        assert [m][1..] == [];
      }
    }
  }
}
