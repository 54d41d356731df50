/** The values a user card derives from its record. */
module UserCard {
  import opened Wrappers
  import opened Users
  import Text

  /** Companies whose chip is highlighted. */
  const PopularCompanies: seq<string> :=
    ["Google", "Facebook", "Meta", "Microsoft", "Apple", "Amazon", "Netflix", "Tesla"]

  /** Some listed company, lowercased, is a substring of the lowercased
      `company`. This is substring matching, so "Metamorph" counts as Meta. */
  predicate MentionsPopular(company: string) {
    exists k :: 0 <= k < |PopularCompanies|
      && Text.Includes(Text.ToLowerCase(company), Text.ToLowerCase(PopularCompanies[k]))
  }

  /** `isPopularCompany`: false for a null or empty company (both falsy),
      otherwise whether it mentions a listed company anywhere in it. */
  function IsPopularCompany(company: Option<string>): (r: bool)
    ensures company.None? ==> !r
    ensures company == Some("") ==> !r
    ensures company.Some? && company.value != "" ==>
      (r <==> exists k, i ::
                0 <= k < |PopularCompanies|
                && Text.OccursAt(Text.ToLowerCase(company.value), Text.ToLowerCase(PopularCompanies[k]), i))
  {
    match company
    case None => false
    case Some(c) =>
      if c == "" then false
      else
        forall k | 0 <= k < |PopularCompanies| {
          Text.IncludesIffOccurs(Text.ToLowerCase(c), Text.ToLowerCase(PopularCompanies[k]));
        }
        MentionsPopular(c)
  }

  lemma MetamorphIsPopular()
    ensures IsPopularCompany(Some("Metamorph"))
  {
    var hay := Text.ToLowerCase("Metamorph");
    var needle := Text.ToLowerCase(PopularCompanies[2]);
    assert needle == "meta";
    assert hay[..4] == "meta";
    assert Text.IsPrefixOf(needle, hay);
    assert MentionsPopular("Metamorph");
  }

  /** The card heading `name || login`. */
  function Heading(u: User): (h: string)
    ensures h == u.name || h == u.login
    ensures h != "" <==> (u.name != "" || u.login != "")
    ensures u.name != "" ==> h == u.name
  {
    if u.name != "" then u.name else u.login
  }

  /** The company chip is shown only for a non-null, non-empty company. */
  predicate ShowsCompanyChip(u: User): (shown: bool)
    ensures shown <==> u.company != None && u.company != Some("")
  {
    u.company.Some? && u.company.value != ""
  }

  /** The chip is only ever highlighted when it is shown. */
  lemma PopularOnlyWithChip(u: User)
    ensures IsPopularCompany(u.company) ==> ShowsCompanyChip(u)
  {
  }

  const FollowersSuffix: string := "?tab=followers"
  const FollowingSuffix: string := "?tab=following"

  /** The followers link: the profile URL with a query suffix. */
  function FollowersLink(u: User): (link: string)
    ensures Text.IsPrefixOf(u.htmlUrl, link)
    ensures link[|u.htmlUrl|..] == FollowersSuffix
  {
    u.htmlUrl + FollowersSuffix
  }

  /** The following link: the profile URL with a query suffix. */
  function FollowingLink(u: User): (link: string)
    ensures Text.IsPrefixOf(u.htmlUrl, link)
    ensures link[|u.htmlUrl|..] == FollowingSuffix
  {
    u.htmlUrl + FollowingSuffix
  }

  /** A link determines the profile it was built from, and the two links of
      one card never coincide. */
  lemma LinksDetermineProfile(u: User, v: User)
    ensures FollowersLink(u) == FollowersLink(v) <==> u.htmlUrl == v.htmlUrl
    ensures FollowingLink(u) == FollowingLink(v) <==> u.htmlUrl == v.htmlUrl
    ensures FollowersLink(u) != FollowingLink(u)
  {
  }
}
