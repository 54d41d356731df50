/** The home page's data logic: building records from detail payloads,
    deriving the displayed list from the search term and sort key, and the
    favorites list. */
module Home {
  import opened Wrappers
  import opened Users
  import Seqs
  import Text
  import Sorting
  import SearchBar
  import UserCard

  /** The fields of a `GET /users/{login}` payload that are read; the
      upstream `name` may be null. */
  datatype Detail = Detail(
    id: int,
    login: string,
    avatarUrl: string,
    name: Option<string>,
    company: Option<string>,
    followers: nat,
    following: nat,
    htmlUrl: string
  )

  /** The record built from one detail payload: `name || login`, so a null
      or empty upstream name falls back to the login; every other field is
      copied as is. */
  function ToUser(d: Detail): (u: User)
    ensures u.name == if d.name.Some? && d.name.value != "" then d.name.value else d.login
    ensures d.login != "" ==> u.name != ""
    ensures && u.id == d.id && u.login == d.login && u.avatarUrl == d.avatarUrl
            && u.company == d.company && u.followers == d.followers
            && u.following == d.following && u.htmlUrl == d.htmlUrl
  {
    var name := match d.name case Some(n) => if n != "" then n else d.login case None => d.login;
    User(d.id, d.login, d.avatarUrl, name, d.company, d.followers, d.following, d.htmlUrl)
  }

  /** For a fetched record the card's own `name || login` fallback never
      fires: its heading is the record's name, non-empty for a real login. */
  lemma FetchedHeadingIsName(d: Detail)
    ensures UserCard.Heading(ToUser(d)) == ToUser(d).name
    ensures d.login != "" ==> UserCard.Heading(ToUser(d)) != ""
  {
  }

  /** The search predicate: the lowercased name includes the lowercased
      term, or a non-null, non-empty company does. */
  predicate Matches(u: User, search: string): (m: bool)
    ensures m <==>
      || (exists i :: Text.OccursAt(Text.ToLowerCase(u.name), Text.ToLowerCase(search), i))
      || (&& u.company.Some? && u.company.value != ""
          && exists i :: Text.OccursAt(Text.ToLowerCase(u.company.value), Text.ToLowerCase(search), i))
  {
    var term := Text.ToLowerCase(search);
    Text.IncludesIffOccurs(Text.ToLowerCase(u.name), term);
    Text.IncludesIffOccurs(Text.ToLowerCase(u.company.GetOr("")), term);
    || Text.Includes(Text.ToLowerCase(u.name), term)
    || (u.company.Some? && u.company.value != "" && Text.Includes(Text.ToLowerCase(u.company.value), term))
  }

  /** The filter step: the matching records, in their original order and
      with their multiplicities; a record is dropped only if neither test
      matches. */
  function FilterUsers(users: seq<User>, search: string): (r: seq<User>)
    ensures Seqs.IsSubsequence(r, users)
    ensures forall i :: 0 <= i < |r| ==> Matches(r[i], search)
    ensures forall u :: multiset(r)[u] == if Matches(u, search) then multiset(users)[u] else 0
  {
    Seqs.Filter(users, u => Matches(u, search))
  }

  /** Every string includes "", so the empty search keeps every record. */
  lemma EmptySearchKeepsAll(users: seq<User>)
    ensures FilterUsers(users, "") == users
  {
    forall i | 0 <= i < |users|
      ensures Matches(users[i], "")
    {
      Text.IncludesEmpty(Text.ToLowerCase(users[i].name));
    }
    Seqs.FilterKeepsAll(users, u => Matches(u, ""));
  }

  /** A record without a (non-empty) company can only match through its name. */
  lemma NoCompanyMatchesByNameOnly(u: User, search: string)
    requires u.company.None? || u.company == Some("")
    ensures Matches(u, search) <==> Text.Includes(Text.ToLowerCase(u.name), Text.ToLowerCase(search))
  {
  }

  /** The sort options of the select box. */
  datatype SortKey = ByName | ByFollowers

  /** The key selected when the page opens. */
  const DefaultSortKey: SortKey := ByName

  /** The relation "a may precede b" of the comparator `(a, b) => b.followers - a.followers`. */
  function FollowersOrder(): (le: (User, User) -> bool)
    ensures forall a, b :: le(a, b) <==> a.followers >= b.followers
  {
    (a: User, b: User) => b.followers - a.followers <= 0
  }

  /** The relation "a may precede b" of `(a, b) => a.name.localeCompare(b.name)`. */
  function NameOrder(localeCompare: (string, string) -> int): (le: (User, User) -> bool)
    ensures ConsistentCollation(localeCompare) ==> Sorting.TotalPreorder(le)
  {
    var le := (a: User, b: User) => localeCompare(a.name, b.name) <= 0;
    ComparingByNamePreorder(localeCompare, le);
    le
  }

  /** Comparing records by their names under a consistent collation orders
      records totally, with ties allowed. */
  lemma ComparingByNamePreorder(localeCompare: (string, string) -> int, le: (User, User) -> bool)
    requires forall a, b :: le(a, b) <==> localeCompare(a.name, b.name) <= 0
    ensures ConsistentCollation(localeCompare) ==> Sorting.TotalPreorder(le)
  {
  }

  /** `localeCompare` is a consistent comparator: it orders all strings
      totally, with ties allowed. */
  ghost predicate ConsistentCollation(localeCompare: (string, string) -> int) {
    && (forall x, y :: localeCompare(x, y) <= 0 || localeCompare(y, x) <= 0)
    && (forall x, y, z :: localeCompare(x, y) <= 0 && localeCompare(y, z) <= 0 ==> localeCompare(x, z) <= 0)
  }

  function Order(key: SortKey, localeCompare: (string, string) -> int): (User, User) -> bool {
    match key
    case ByName => NameOrder(localeCompare)
    case ByFollowers => FollowersOrder()
  }

  lemma OrderIsTotalPreorder(key: SortKey, localeCompare: (string, string) -> int)
    requires key == ByName ==> ConsistentCollation(localeCompare)
    ensures Sorting.TotalPreorder(Order(key, localeCompare))
  {
    if key == ByFollowers {
      var le := FollowersOrder();
      assert forall a, b :: le(a, b) || le(b, a);
      assert forall a, b, c :: le(a, b) && le(b, c) ==> le(a, c);
    }
  }

  /** The order the displayed list is in: name ascending under the collation,
      or followers descending. */
  ghost predicate InDisplayOrder(r: seq<User>, key: SortKey, localeCompare: (string, string) -> int) {
    match key
    case ByName => forall i, j :: 0 <= i < j < |r| ==> localeCompare(r[i].name, r[j].name) <= 0
    case ByFollowers => forall i, j :: 0 <= i < j < |r| ==> r[i].followers >= r[j].followers
  }

  /** The sort step: a permutation of its input in display order. */
  function SortUsers(users: seq<User>, key: SortKey, localeCompare: (string, string) -> int): (r: seq<User>)
    requires key == ByName ==> ConsistentCollation(localeCompare)
    ensures multiset(r) == multiset(users)
    ensures InDisplayOrder(r, key, localeCompare)
  {
    OrderIsTotalPreorder(key, localeCompare);
    var r := Sorting.InsertionSort(Order(key, localeCompare), users);
    assert Sorting.SortedBy(Order(key, localeCompare), r);
    r
  }

  /** Records the comparator ranks equal (the same follower count, or names
      the collation ties) keep their relative input order. */
  lemma SortUsersIsStable(users: seq<User>, key: SortKey, localeCompare: (string, string) -> int)
    requires key == ByName ==> ConsistentCollation(localeCompare)
    ensures Sorting.Stable(Order(key, localeCompare), users, SortUsers(users, key, localeCompare))
  {
    OrderIsTotalPreorder(key, localeCompare);
    Sorting.InsertionSortIsStable(Order(key, localeCompare), users);
  }

  /** The list the page shows (its length is the "Total Users" count):
      exactly the matching records, each as often as in `users`, in display
      order. */
  function Displayed(users: seq<User>, search: string, key: SortKey, localeCompare: (string, string) -> int)
    : (r: seq<User>)
    requires key == ByName ==> ConsistentCollation(localeCompare)
    ensures forall u :: multiset(r)[u] == if Matches(u, search) then multiset(users)[u] else 0
    ensures |r| == |FilterUsers(users, search)|
    ensures InDisplayOrder(r, key, localeCompare)
    ensures Sorting.Stable(Order(key, localeCompare), FilterUsers(users, search), r)
  {
    var filtered := FilterUsers(users, search);
    assert |multiset(filtered)| == |filtered|;
    SortUsersIsStable(filtered, key, localeCompare);
    SortUsers(filtered, key, localeCompare)
  }

  /** Searching "acm" over Ada (company Acme) and Bob (no company) keeps
      only Ada; the empty search keeps both. */
  lemma FilterExample()
    ensures
      var ada := User(1, "ada", "", "Ada", Some("Acme"), 10, 0, "");
      var bob := User(2, "bob", "", "Bob", None, 20, 0, "");
      && FilterUsers([ada, bob], "acm") == [ada]
      && FilterUsers([ada, bob], "") == [ada, bob]
  {
    var ada := User(1, "ada", "", "Ada", Some("Acme"), 10, 0, "");
    var bob := User(2, "bob", "", "Bob", None, 20, 0, "");
    assert Text.ToLowerCase("acm") == "acm";
    assert Text.ToLowerCase("Acme") == "acme";
    assert Text.ToLowerCase("Bob") == "bob";
    assert "acme"[..3] == "acm";
    assert Matches(ada, "acm");
    assert !Text.Includes("bob", "acm") by {
      Text.IncludesIffOccurs("bob", "acm");
      assert !Text.OccursAt("bob", "acm", 0) by {
        assert "bob"[0] != "acm"[0];
      }
    }
    assert !Matches(bob, "acm");
    assert [ada, bob] == [ada] + [bob];
    Seqs.FilterConcat([ada], [bob], u => Matches(u, "acm"));
    EmptySearchKeepsAll([ada, bob]);
  }

  /** Sorting followers 5, 50, 50 by followers puts the two 50s first, in
      their input order. */
  lemma FollowersSortExample()
    ensures
      var a := User(1, "a", "", "a", None, 5, 0, "");
      var b := User(2, "b", "", "b", None, 50, 0, "");
      var c := User(3, "c", "", "c", None, 50, 0, "");
      SortUsers([a, b, c], ByFollowers, (x: string, y: string) => 0) == [b, c, a]
  {
  }

  /** `toggleFavorite`: a present id is removed (every occurrence of it),
      an absent one is appended; all other ids keep their multiplicity and,
      on removal, their order. */
  function ToggleFavorite(favorites: seq<int>, id: int): (r: seq<int>)
    ensures id in r <==> id !in favorites
    ensures forall x :: x != id ==> multiset(r)[x] == multiset(favorites)[x]
    ensures id in favorites ==> Seqs.IsSubsequence(r, favorites)
    ensures id !in favorites ==> r == favorites + [id]
  {
    if id in favorites then Seqs.Filter(favorites, f => f != id)
    else favorites + [id]
  }

  /** Toggling twice gives back the same set of ids. */
  lemma ToggleTwiceSameIds(favorites: seq<int>, id: int)
    ensures forall x :: x in ToggleFavorite(ToggleFavorite(favorites, id), id) <==> x in favorites
  {
  }

  /** Adding then removing an id gives back the very same list. */
  lemma ToggleAbsentTwiceRestores(favorites: seq<int>, id: int)
    requires id !in favorites
    ensures ToggleFavorite(ToggleFavorite(favorites, id), id) == favorites
  {
    var p := (f: int) => f != id;
    Seqs.FilterConcat(favorites, [id], p);
    Seqs.FilterKeepsAll(favorites, p);
    assert Seqs.Filter([id], p) == [];
  }

  /** A duplicate-free favorites list stays duplicate-free. */
  lemma ToggleKeepsNoDuplicates(favorites: seq<int>, id: int)
    requires Seqs.NoDuplicates(favorites)
    ensures Seqs.NoDuplicates(ToggleFavorite(favorites, id))
  {
  }

  /** The page state. */
  datatype HomeState = HomeState(users: seq<User>, search: string, sortBy: SortKey, favorites: seq<int>)

  /** The state when the page opens: no records, an empty search, sorting
      by name, and the stored favorites, or none when nothing is stored
      (`saved` is `None` for a missing or empty stored string). */
  function Initial(saved: Option<seq<int>>): (s: HomeState)
    ensures s.users == [] && s.search == "" && s.sortBy == ByName
    ensures saved.None? ==> s.favorites == []
    ensures saved.Some? ==> s.favorites == saved.value
    ensures SearchBar.IsClean(s.search)
  {
    HomeState([], "", DefaultSortKey, saved.GetOr([]))
  }

  /** What can happen to the page: the fetch settles (the payloads of all
      detail requests, or `None` when any request failed), the search input
      reacts to an event, a sort option is chosen, a star is clicked. */
  datatype Action =
    | FetchSettled(details: Option<seq<Detail>>)
    | SearchInput(ev: SearchBar.InputEvent)
    | SelectSort(key: SortKey)
    | StarClicked(id: int)

  function Step(s: HomeState, a: Action): (t: HomeState)
    ensures SearchBar.IsClean(s.search) ==> SearchBar.IsClean(t.search)
    ensures a.FetchSettled? && a.details.Some? ==>
      |t.users| == |a.details.value|
      && forall i :: 0 <= i < |t.users| ==> t.users[i] == ToUser(a.details.value[i])
    ensures a == FetchSettled(None) ==> t == s
    ensures !a.FetchSettled? ==> t.users == s.users
    ensures !a.StarClicked? ==> t.favorites == s.favorites
    ensures a.StarClicked? ==> (a.id in t.favorites <==> a.id !in s.favorites)
    ensures a.StarClicked? ==> t.favorites == ToggleFavorite(s.favorites, a.id)
    ensures a.SelectSort? ==> t.sortBy == a.key
    ensures !a.SelectSort? ==> t.sortBy == s.sortBy
    ensures a.SearchInput? ==> t.search == SearchBar.Handle(s.search, a.ev).emitted.GetOr(s.search)
    ensures !a.SearchInput? ==> t.search == s.search
  {
    match a
    case FetchSettled(None) => s
    case FetchSettled(Some(ds)) =>
      s.(users := seq(|ds|, i requires 0 <= i < |ds| => ToUser(ds[i])))
    case SearchInput(ev) =>
      var reaction := SearchBar.Handle(s.search, ev);
      if reaction.emitted.Some? then s.(search := reaction.emitted.value) else s
    case SelectSort(key) => s.(sortBy := key)
    case StarClicked(id) => s.(favorites := ToggleFavorite(s.favorites, id))
  }
}
