/**
 * The person records the directory browser loads from randomuser.me
 * (`inc=login,name,email,cell,location,picture`), as the handlers see them.
 *
 * `name` and `location` are dictionaries because the edit form writes
 * into them by a key taken from the input's name (`name.first`,
 * `location.city`, ...). `extra` holds the top-level string members that
 * an edit adds beside the fetched ones (the merged `image`, or any other
 * top-level input), keyed by member name.
 */
module Records {

  type Dict = map<string, string>

  datatype Option<T> = None | Some(value: T)

  /** The top-level members that hold objects rather than strings. */
  const ObjectKeys: set<string> := {"login", "name", "location", "picture"}

  /** `user.login`: `username` is the identity key, `uuid` picks the card that shows the editor. */
  datatype Login = Login(username: string, uuid: string)

  /** `user.picture`: the portrait URLs in three sizes. */
  datatype Picture = Picture(large: string, medium: string, thumbnail: string)

  datatype User = User(
    login: Login,
    name: Dict,
    email: string,
    cell: string,
    location: Dict,
    picture: Picture,
    extra: Dict)

  /** Template-literal rendering of `d[k]`: an absent member reads as "undefined". */
  function Get(d: Dict, k: string): string
  {
    if k in d then d[k] else "undefined"
  }

  /** The display name `${user.name.first} ${user.name.last}`, the sort key. */
  function NameKey(u: User): string
  {
    Get(u.name, "first") + " " + Get(u.name, "last")
  }

  /**
   * The text the search matches against:
   * `${first} ${last} ${email} ${cell} ${city} ${state}`.
   */
  function SearchText(u: User): string
  {
    NameKey(u) + " " + u.email + " " + u.cell + " "
      + Get(u.location, "city") + " " + Get(u.location, "state")
  }

  function Username(u: User): string
  {
    u.login.username
  }

  /** The string-valued top-level member `u[k]`, or None when it is absent or an object. */
  function Member(u: User, k: string): Option<string>
  {
    if k == "email" then Some(u.email)
    else if k == "cell" then Some(u.cell)
    else if k in ObjectKeys || k !in u.extra then None
    else Some(u.extra[k])
  }
}
