/**
 * The like button of src/modules/movies/components/MovieThumb/MovieThumb.tsx:
 * a local "liked by user" flag, set once from the `likedByUser` prop, that
 * each click branches on and then flips, calling the `unlike` or `like`
 * callback on the way when that callback was given.
 */
module MovieThumb {
  import opened Movies

  /** A call the button makes to one of its two optional callbacks. */
  datatype Call = LikeCall | UnlikeCall

  /** The callback a click reaches for while the flag is `liked`. */
  function CallFor(liked: bool): Call {
    if liked then UnlikeCall else LikeCall
  }

  /** The value of the flag after `n` clicks from `liked`. */
  function FlagAfter(liked: bool, n: nat): bool {
    if n % 2 == 0 then liked else !liked
  }

  /** Clicking once and then `n` times is clicking `n + 1` times. */
  lemma FlagAfterStep(liked: bool, n: nat)
    ensures FlagAfter(!liked, n) == FlagAfter(liked, n + 1)
    ensures FlagAfter(liked, n + 1) == !FlagAfter(liked, n)
  {
    if n % 2 == 0 {
      assert (n + 1) % 2 == 1;
    } else {
      assert (n + 1) % 2 == 0;
    }
  }

  /** The callbacks `n` clicks reach for, starting with the flag at `liked`. */
  function Attempts(liked: bool, n: nat): (r: seq<Call>)
    ensures |r| == n
    decreases n
  {
    if n == 0 then [] else [CallFor(liked)] + Attempts(!liked, n - 1)
  }

  /** The k-th click reaches for `unlike` exactly when the flag is set at that point. */
  lemma {:induction false} AttemptsAt(liked: bool, n: nat, k: nat)
    requires k < n
    ensures Attempts(liked, n)[k] == CallFor(FlagAfter(liked, k))
    decreases n
  {
    if k > 0 {
      AttemptsAt(!liked, n - 1, k - 1);
      FlagAfterStep(liked, k - 1);
    }
  }

  /** Successive clicks reach for different callbacks, starting with `unlike` exactly when the flag starts set. */
  lemma AttemptsAlternate(liked: bool, n: nat, k: nat)
    requires k + 1 < n
    ensures Attempts(liked, n)[0] == (if liked then UnlikeCall else LikeCall)
    ensures Attempts(liked, n)[k] != Attempts(liked, n)[k + 1]
  {
    AttemptsAt(liked, n, 0);
    AttemptsAt(liked, n, k);
    AttemptsAt(liked, n, k + 1);
    FlagAfterStep(liked, k);
  }

  /** `n` calls of `c` in a row. */
  function Repeat(c: Call, n: nat): (r: seq<Call>)
    ensures |r| == n
  {
    if n == 0 then [] else [c] + Repeat(c, n - 1)
  }

  /** The calls actually made for `attempts`: those whose callback was given. */
  function Made(attempts: seq<Call>, hasLike: bool, hasUnlike: bool): (r: seq<Call>)
    ensures |r| <= |attempts|
    ensures hasLike && hasUnlike ==> r == attempts
    ensures !hasLike ==> LikeCall !in r
    ensures !hasUnlike ==> UnlikeCall !in r
  {
    if attempts == [] then []
    else
      var present := if attempts[0] == LikeCall then hasLike else hasUnlike;
      (if present then [attempts[0]] else []) + Made(attempts[1..], hasLike, hasUnlike)
  }

  /**
   * With one callback missing, the calls made are exactly the attempts of the
   * other one, as many as there were; with both missing, none are made.
   */
  lemma {:induction false} MadeOneCallback(attempts: seq<Call>, hasLike: bool, hasUnlike: bool)
    ensures hasLike && !hasUnlike ==> Made(attempts, hasLike, hasUnlike) == Repeat(LikeCall, multiset(attempts)[LikeCall])
    ensures !hasLike && hasUnlike ==> Made(attempts, hasLike, hasUnlike) == Repeat(UnlikeCall, multiset(attempts)[UnlikeCall])
    ensures !hasLike && !hasUnlike ==> Made(attempts, hasLike, hasUnlike) == []
  {
    if attempts != [] {
      assert attempts == [attempts[0]] + attempts[1..];
      MadeOneCallback(attempts[1..], hasLike, hasUnlike);
    }
  }

  /** One more click appends one attempt, for the flag as it then is. */
  lemma {:induction false} AttemptsSnoc(liked: bool, n: nat)
    ensures Attempts(liked, n + 1) == Attempts(liked, n) + [CallFor(FlagAfter(liked, n))]
  {
    var a, b := Attempts(liked, n + 1), Attempts(liked, n) + [CallFor(FlagAfter(liked, n))];
    assert |a| == |b|;
    forall k | 0 <= k < |a|
      ensures a[k] == b[k]
    {
      AttemptsAt(liked, n + 1, k);
      if k < n {
        AttemptsAt(liked, n, k);
      }
    }
  }

  /** What one more click adds to the calls made: its attempt, if that callback was given. */
  lemma MadeStep(liked: bool, n: nat, hasLike: bool, hasUnlike: bool)
    ensures var c := CallFor(FlagAfter(liked, n));
      Made(Attempts(liked, n + 1), hasLike, hasUnlike) ==
      Made(Attempts(liked, n), hasLike, hasUnlike) + (if (if c == LikeCall then hasLike else hasUnlike) then [c] else [])
  {
    var c := CallFor(FlagAfter(liked, n));
    AttemptsSnoc(liked, n);
    MadeConcat(Attempts(liked, n), [c], hasLike, hasUnlike);
    assert [c][1..] == [];
  }

  /** Filtering by the given callbacks distributes over concatenation. */
  lemma {:induction false} MadeConcat(a: seq<Call>, b: seq<Call>, hasLike: bool, hasUnlike: bool)
    ensures Made(a + b, hasLike, hasUnlike) == Made(a, hasLike, hasUnlike) + Made(b, hasLike, hasUnlike)
  {
    if a == [] {
      assert a + b == b;
    } else {
      assert (a + b)[1..] == a[1..] + b;
      MadeConcat(a[1..], b, hasLike, hasUnlike);
    }
  }

  /** The like button of one thumbnail. */
  class Thumb {
    /** The movie the thumbnail shows; the callbacks are bound to it. */
    const movie: Movie
    /** Whether the `like` and `unlike` props were given. */
    const hasLike: bool
    const hasUnlike: bool
    /** The `isLikedByUser` state. */
    var isLikedByUser: bool
    /** Every callback call made so far, oldest first. */
    var calls: seq<Call>
    /** The `likedByUser` prop at creation, and the number of clicks since. */
    ghost const likedByUser: bool
    ghost var clicks: nat

    /** The flag and the calls made are those of `clicks` clicks since creation. */
    ghost predicate Valid()
      reads this
    {
      && isLikedByUser == FlagAfter(likedByUser, clicks)
      && calls == Made(Attempts(likedByUser, clicks), hasLike, hasUnlike)
    }

    /** `useState(likedByUser)`: the flag starts as the prop; no call has been made. */
    constructor (movie: Movie, likedByUser: bool, hasLike: bool, hasUnlike: bool)
      ensures Valid()
      ensures this.movie == movie && this.hasLike == hasLike && this.hasUnlike == hasUnlike
      ensures this.likedByUser == likedByUser && isLikedByUser == likedByUser
      ensures calls == [] && clicks == 0
    {
      this.movie := movie;
      this.hasLike := hasLike;
      this.hasUnlike := hasUnlike;
      this.likedByUser := likedByUser;
      isLikedByUser := likedByUser;
      calls := [];
      clicks := 0;
    }

    /**
     * `handleLikeButtonClick`: while liked, call `unlike` (never `like`);
     * otherwise call `like` (never `unlike`); an absent callback is skipped.
     * The flag flips either way.
     */
    method Click()
      requires Valid()
      modifies this`isLikedByUser, this`calls, this`clicks
      ensures Valid()
      ensures isLikedByUser == !old(isLikedByUser)
      ensures old(isLikedByUser) ==> calls == old(calls) + (if hasUnlike then [UnlikeCall] else [])
      ensures !old(isLikedByUser) ==> calls == old(calls) + (if hasLike then [LikeCall] else [])
      ensures clicks == old(clicks) + 1
    {
      assert FlagAfter(likedByUser, clicks + 1) == !isLikedByUser by {
        FlagAfterStep(likedByUser, clicks);
      }
      assert Made(Attempts(likedByUser, clicks + 1), hasLike, hasUnlike) == calls +
        (if isLikedByUser then (if hasUnlike then [UnlikeCall] else [])
         else (if hasLike then [LikeCall] else [])) by {
        MadeStep(likedByUser, clicks, hasLike, hasUnlike);
      }
      if isLikedByUser {
        if hasUnlike {
          calls := calls + [UnlikeCall];
        }
      } else {
        if hasLike {
          calls := calls + [LikeCall];
        }
      }
      isLikedByUser := !isLikedByUser;
      clicks := clicks + 1;
    }
  }

  /** The action a call dispatches, as the home page binds the callbacks: like and unlike of the thumbnail's movie. */
  function ActionOf(call: Call, movie: Movie): Action {
    match call
    case LikeCall => Like(movie)
    case UnlikeCall => Unlike(movie)
  }

  /** The actions a run of calls dispatches, in order. */
  function ActionsOf(calls: seq<Call>, movie: Movie): seq<Action>
    decreases |calls|
  {
    if calls == [] then [] else [ActionOf(calls[0], movie)] + ActionsOf(calls[1..], movie)
  }

  /** A run of clicks is its first click followed by the run from the flipped flag. */
  lemma AttemptsCons(liked: bool, n: nat)
    requires n > 0
    ensures Attempts(liked, n) == [CallFor(liked)] + Attempts(!liked, n - 1)
  {
  }

  /** Mapping calls to actions unfolds at the front. */
  lemma ActionsOfCons(c: Call, cs: seq<Call>, movie: Movie)
    ensures ActionsOf([c] + cs, movie) == [ActionOf(c, movie)] + ActionsOf(cs, movie)
  {
    assert ([c] + cs)[1..] == cs;
  }

  /** Running the reducer over actions unfolds at the front. */
  lemma ReduceAllCons(liked: seq<Movie>, a: Action, rest: seq<Action>)
    ensures ReduceAll(liked, [a] + rest) == ReduceAll(Reduce(liked, a), rest)
  {
    assert ([a] + rest)[1..] == rest;
  }

  /** One click's action moves the movie's membership to the flipped flag. */
  lemma ClickActionFlips(liked: seq<Movie>, movie: Movie, flag: bool)
    requires flag == HasId(liked, movie.imdbID)
    ensures HasId(Reduce(liked, ActionOf(CallFor(flag), movie)), movie.imdbID) == !flag
  {
    if !flag {
      var next := Reduce(liked, Like(movie));
      assert next[|liked|].imdbID == movie.imdbID;
    }
  }

  /** One click's step of the run: the rest of the run, from the state after the first action, decides membership. */
  lemma SyncStep(liked: seq<Movie>, movie: Movie, flag: bool, n: nat)
    requires n > 0 && flag == HasId(liked, movie.imdbID)
    requires HasId(ReduceAll(Reduce(liked, ActionOf(CallFor(flag), movie)), ActionsOf(Attempts(!flag, n - 1), movie)), movie.imdbID)
      == FlagAfter(!flag, n - 1)
    ensures HasId(ReduceAll(liked, ActionsOf(Attempts(flag, n), movie)), movie.imdbID) == FlagAfter(flag, n)
  {
    var a := ActionOf(CallFor(flag), movie);
    var rest := ActionsOf(Attempts(!flag, n - 1), movie);
    assert ActionsOf(Attempts(flag, n), movie) == [a] + rest by {
      AttemptsCons(flag, n);
      ActionsOfCons(CallFor(flag), Attempts(!flag, n - 1), movie);
    }
    ReduceAllCons(liked, a, rest);
    FlagAfterStep(flag, n - 1);
  }

  /**
   * A thumbnail created in step with the store stays in step: after any
   * number of clicks with both callbacks given, the movie is in the liked
   * list exactly when the button's flag says so.
   */
  lemma {:induction false} ClicksKeepFlagInSync(liked: seq<Movie>, movie: Movie, flag: bool, n: nat)
    requires flag == HasId(liked, movie.imdbID)
    ensures HasId(ReduceAll(liked, ActionsOf(Attempts(flag, n), movie)), movie.imdbID) == FlagAfter(flag, n)
    decreases n
  {
    if n > 0 {
      ClickActionFlips(liked, movie, flag);
      ClicksKeepFlagInSync(Reduce(liked, ActionOf(CallFor(flag), movie)), movie, !flag, n - 1);
      SyncStep(liked, movie, flag, n);
    }
  }

  /**
   * The same for a given button: if it was created in step with the liked
   * list and both callbacks were given, dispatching the calls it has made,
   * as like/unlike of its own movie, leaves that movie liked exactly when
   * its flag is set.
   */
  lemma ThumbInSync(thumb: Thumb, liked: seq<Movie>)
    requires thumb.Valid() && thumb.hasLike && thumb.hasUnlike
    requires thumb.likedByUser == HasId(liked, thumb.movie.imdbID)
    ensures HasId(ReduceAll(liked, ActionsOf(thumb.calls, thumb.movie)), thumb.movie.imdbID) == thumb.isLikedByUser
  {
    ClicksKeepFlagInSync(liked, thumb.movie, thumb.likedByUser, thumb.clicks);
  }
}
