/** The user-data service: the user list filtered by a search term, and the
    single view-model record whose fields the service's updates replace.
    HTTP responses enter as parameters. */
module Service {
  import opened Types
  import opened Text
  import opened WordCount

  // ---------------------------------------------------------------------------
  // The user list

  /** The projection `{ name, id }` applied to every fetched user. */
  function ToUserData(raw: RawUserData): UserData
  {
    UserData(raw.id, raw.name)
  }

  /** The lower-cased name contains the lower-cased search term. */
  predicate NameMatches(user: UserData, userName: string)
  {
    Includes(Lower(user.name), Lower(userName))
  }

  /** The users `getUsers(userName)` publishes for the fetched list `raw`. */
  function FilterUsers(raw: seq<RawUserData>, userName: string): (r: seq<UserData>)
    ensures |r| <= |raw|
    ensures forall k :: 0 <= k < |r| ==> NameMatches(r[k], userName)
  {
    if raw == [] then []
    else
      var user := ToUserData(raw[0]);
      (if NameMatches(user, userName) then [user] else []) + FilterUsers(raw[1..], userName)
  }

  /** Filtering a concatenation filters each part, so the original order is kept. */
  lemma {:induction false} FilterUsersAppend(a: seq<RawUserData>, b: seq<RawUserData>, userName: string)
    ensures FilterUsers(a + b, userName) == FilterUsers(a, userName) + FilterUsers(b, userName)
  {
    if a != [] {
      assert (a + b)[0] == a[0];
      assert (a + b)[1..] == a[1..] + b;
      FilterUsersAppend(a[1..], b, userName);
    } else {
      assert a + b == b;
    }
  }

  /** Exactly the fetched users whose name matches are kept. */
  lemma {:induction false} FilterUsersMembership(raw: seq<RawUserData>, userName: string)
    ensures forall u :: u in FilterUsers(raw, userName) <==>
      NameMatches(u, userName) && exists k :: 0 <= k < |raw| && ToUserData(raw[k]) == u
  {
    if raw != [] {
      FilterUsersMembership(raw[1..], userName);
      forall u ensures u in FilterUsers(raw, userName) <==>
        NameMatches(u, userName) && exists k :: 0 <= k < |raw| && ToUserData(raw[k]) == u
      {
        if exists k :: 0 <= k < |raw| && ToUserData(raw[k]) == u {
          var k :| 0 <= k < |raw| && ToUserData(raw[k]) == u;
          if k > 0 {
            assert ToUserData(raw[1..][k - 1]) == u;
          }
        }
        if exists k :: 0 <= k < |raw[1..]| && ToUserData(raw[1..][k]) == u {
          var k :| 0 <= k < |raw[1..]| && ToUserData(raw[1..][k]) == u;
          assert ToUserData(raw[k + 1]) == u;
        }
      }
    }
  }

  /** With the default empty search term every fetched user is kept. */
  lemma {:induction false} FilterUsersEmptyTerm(raw: seq<RawUserData>)
    ensures |FilterUsers(raw, "")| == |raw|
    ensures forall k :: 0 <= k < |raw| ==> FilterUsers(raw, "")[k] == ToUserData(raw[k])
  {
    if raw != [] {
      FilterUsersEmptyTerm(raw[1..]);
      assert NameMatches(ToUserData(raw[0]), "") by {
        IncludesEmpty(Lower(raw[0].name));
      }
    }
  }

  // ---------------------------------------------------------------------------
  // The view-model record

  /** The word-frequency field before any user is selected. */
  const NoWordFrequency := WordFrequency(0, [], 0)

  /** The state the service starts from. */
  const InitialState := UserViewModel([], "", [], [], false, NoWordFrequency)

  /** The word-frequency field describes the comments field: either nothing is
      selected yet, or it is the breakdown of those comments. */
  ghost predicate Consistent(s: UserViewModel)
  {
    (s.activeUserComments == [] && s.wordFrequency == NoWordFrequency) ||
    Frequency(s.activeUserComments) == Success(s.wordFrequency)
  }

  lemma InitialStateConsistent()
    ensures Consistent(InitialState)
  {
  }

  /** The state once the initial users request answers: the whole list, not loading. */
  function UsersLoaded(s: UserViewModel, raw: seq<RawUserData>): (r: UserViewModel)
    ensures r.(users := s.users, loading := s.loading) == s
    ensures !r.loading
    ensures |r.users| == |raw|
    ensures forall k :: 0 <= k < |raw| ==> r.users[k] == ToUserData(raw[k])
  {
    FilterUsersEmptyTerm(raw);
    s.(users := FilterUsers(raw, ""), loading := false)
  }

  /** The state once a search answers: the new term, the matching users and the
      loading flag set; the selected user's data is kept. */
  function SearchTermApplied(s: UserViewModel, searchTerm: string, raw: seq<RawUserData>): (r: UserViewModel)
    ensures r.(searchTerm := s.searchTerm, users := s.users, loading := s.loading) == s
    ensures r.searchTerm == searchTerm && r.loading
    ensures forall k :: 0 <= k < |r.users| ==> NameMatches(r.users[k], searchTerm)
  {
    s.(searchTerm := searchTerm, users := FilterUsers(raw, searchTerm), loading := true)
  }

  /** The state once a user's posts and comments arrive: those two fields and
      their breakdown are replaced, the rest is kept. Computing the breakdown
      fails when there are no comments, and then no new state is produced. */
  function PostsAndCommentsApplied(s: UserViewModel, comments: seq<UserComment>, posts: seq<UserPost>)
    : (r: Result<UserViewModel>)
    ensures r.Failure? <==> comments == []
    ensures r.Success? ==>
      && r.value.(activeUserComments := s.activeUserComments, activeUserPosts := s.activeUserPosts,
                  wordFrequency := s.wordFrequency) == s
      && r.value.activeUserComments == comments
      && r.value.activeUserPosts == posts
      && Success(r.value.wordFrequency) == Frequency(comments)
  {
    FrequencyFailsIffNoComments(comments);
    match Frequency(comments)
    case Failure(e) => Failure(e)
    case Success(f) => Success(s.(activeUserComments := comments, activeUserPosts := posts, wordFrequency := f))
  }

  /** Every transition keeps the word-frequency field in step with the comments. */
  lemma TransitionsKeepConsistent(s: UserViewModel, searchTerm: string, raw: seq<RawUserData>,
                                  comments: seq<UserComment>, posts: seq<UserPost>)
    requires Consistent(s)
    ensures Consistent(UsersLoaded(s, raw))
    ensures Consistent(SearchTermApplied(s, searchTerm, raw))
    ensures PostsAndCommentsApplied(s, comments, posts).Success? ==>
      Consistent(PostsAndCommentsApplied(s, comments, posts).value)
  {
  }

  /** A search and a selection touch disjoint fields, so their order does not matter. */
  lemma SearchAndSelectionCommute(s: UserViewModel, searchTerm: string, raw: seq<RawUserData>,
                                  comments: seq<UserComment>, posts: seq<UserPost>)
    ensures var selected := PostsAndCommentsApplied(s, comments, posts);
      selected.Success? ==>
        PostsAndCommentsApplied(SearchTermApplied(s, searchTerm, raw), comments, posts)
          == Success(SearchTermApplied(selected.value, searchTerm, raw))
  {
  }

  // ---------------------------------------------------------------------------
  // The service object

  class UserDataService {
    var state: UserViewModel

    /** The service starts from the initial state; the users request it sends
        answers later, through ReceiveInitialUsers. */
    constructor()
      ensures state == InitialState
    {
      state := InitialState;
    }

    /** The answer to the constructor's users request. */
    method ReceiveInitialUsers(raw: seq<RawUserData>)
      modifies this
      ensures state == UsersLoaded(old(state), raw)
      ensures Consistent(old(state)) ==> Consistent(state)
    {
      UpdateState(state.(users := FilterUsers(raw, ""), loading := false));
    }

    /** A copy of the current state. */
    method GetStateSnapshot() returns (snapshot: UserViewModel)
      ensures snapshot == state
    {
      snapshot := state.(activeUserPosts := state.activeUserPosts[..],
                         activeUserComments := state.activeUserComments[..]);
    }

    /** A new search term, with `raw` the answer to the users request it sends. */
    method UpdateSearchTerm(searchTerm: string, raw: seq<RawUserData>)
      modifies this
      ensures state == SearchTermApplied(old(state), searchTerm, raw)
      ensures Consistent(old(state)) ==> Consistent(state)
    {
      var users := FilterUsers(raw, searchTerm);
      UpdateState(state.(searchTerm := searchTerm, users := users, loading := true));
    }

    /** A user selected, with `comments` and `posts` the answers to the two
        requests it sends. When the breakdown fails the state is left as it
        was and the failure is returned. */
    method UpdateActiveUserPostsAndComments(comments: seq<UserComment>, posts: seq<UserPost>)
      returns (failure: Option<Error>)
      modifies this
      ensures failure.Some? <==> comments == []
      ensures match PostsAndCommentsApplied(old(state), comments, posts)
        case Success(s) => state == s
        case Failure(_) => state == old(state)
      ensures Consistent(old(state)) ==> Consistent(state)
    {
      var frequency := ComputeWordFrequency(comments);
      FrequencyFailsIffNoComments(comments);
      match frequency
      case Failure(e) =>
        failure := Some(e);
      case Success(f) =>
        UpdateState(state.(activeUserComments := comments, activeUserPosts := posts, wordFrequency := f));
        failure := None;
    }

    /** Replace the state. */
    method UpdateState(s: UserViewModel)
      modifies this
      ensures state == s
    {
      state := s;
    }
  }
}
