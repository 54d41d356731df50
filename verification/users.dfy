/** The `User` record every view works on. */
module Users {
  import opened Wrappers

  /** One enriched GitHub account. `company` is nullable, and a null company
      is distinct from an empty one; the two counts are never negative. */
  datatype User = User(
    id: int,
    login: string,
    avatarUrl: string,
    name: string,
    company: Option<string>,
    followers: nat,
    following: nat,
    htmlUrl: string
  )
}
