/**
 * The entities of the media service (CRUD.go:15-68): media records, credential
 * entries, the seed data, the argument bag handed to every resolver, the
 * outcome of a resolver, and the find-first scan every "by id" and "by
 * username" lookup is built on.
 */
module Catalog {
  import opened Wrappers

  /** A media record (CRUD.go:15-19). The Go field is an int64; ids in this service stay far inside that range. */
  datatype Media = Media(ID: int, Name: string, Type: string)

  /** A credential entry (CRUD.go:21-24); the password is stored in plain text. */
  datatype User = User(Username: string, Password: string)

  /** The zero value `Media{}` that update and delete return when no record has the id. */
  const ZeroMedia := Media(0, "", "")

  /** The initial contents of the store (CRUD.go:26-57); ids 5 and 5 are adjacent at the end. */
  const SeedMedias: seq<Media> := [
    Media(1, "media_flag", "Look at the ldap server at port 80. Can you somehow extract the data inside it? Hint 1: the login username is autofilled for you. Hint 2: google is your best friend."),
    Media(2, "media_sunset_hawk", "Video"),
    Media(3, "media_admin_canyon", "Video"),
    Media(4, "media_admin_not_flag", "Video"),
    Media(5, "hello_media_admin", "Video"),
    Media(5, "hawk's workout", "Image")
  ]

  /** The credential table (CRUD.go:59-68); it is never written. */
  const SeedUsers: seq<User> := [
    User("media_admin", "bad_matching_practice"),
    User("hawk", "123")
  ]

  /** An argument value after the GraphQL executor has coerced it to the declared scalar type. */
  datatype Value = IntValue(i: int) | StringValue(s: string)

  /** The argument bag `p.Args` a resolver receives: only the arguments the caller supplied are present. */
  type Args = map<string, Value>

  /** `p.Args[key].(string)` in its comma-ok form: None when the key is absent or not a string. */
  function StringArg(args: Args, key: string): Option<string>
  {
    if key in args && args[key].StringValue? then Some(args[key].s) else None
  }

  /** `p.Args[key].(int)` in its comma-ok form. */
  function IntArg(args: Args, key: string): Option<int>
  {
    if key in args && args[key].IntValue? then Some(args[key].i) else None
  }

  /** `id, _ := p.Args[key].(int)`: the zero value when the assertion fails. */
  function IntOrZero(args: Args, key: string): int
  {
    match IntArg(args, key)
    case Some(i) => i
    case None => 0
  }

  /** Why a resolver panicked; the GraphQL executor turns the panic into an error for that field. */
  datatype PanicCause =
    | BadPattern(pattern: string)           // regexp.MustCompile on a pattern that does not compile
    | NotAString(key: string)               // the assertion params.Args[key].(string) without comma-ok
    | IndexOutOfRange(index: int, length: int)

  /** The messages of the errors the resolvers return with errors.New. */
  const UsernameNotFound := "username not found"
  const PasswordNotFound := "password not found"
  const PasswordMismatch := "password mismatch"

  /** What a resolver hands back to the executor. */
  datatype Outcome =
    | Ok(media: Media)              // one record (possibly the zero record)
    | OkList(list: seq<Media>)      // the records of mediaList
    | Nil                           // `return nil, nil`
    | Err(msg: string)              // `return nil, errors.New(msg)`
    | Panic(cause: PanicCause)      // a run-time panic inside the resolver

  /** The position of the first element of `s` satisfying `p`: the shape of every `for ... range` scan that stops at a match. */
  function FirstIndex<T>(s: seq<T>, p: T -> bool): (r: Option<nat>)
    ensures r.Some? ==> r.value < |s| && p(s[r.value]) && forall j :: 0 <= j < r.value ==> !p(s[j])
    ensures r.None? ==> forall j :: 0 <= j < |s| ==> !p(s[j])
  {
    if s == [] then None
    else if p(s[0]) then Some(0)
    else
      match FirstIndex(s[1..], p)
      case None => None
      case Some(k) => Some(k + 1)
  }

  /** A scan that meets its first match at `k` is what FirstIndex computes. */
  lemma FirstIndexAt<T>(s: seq<T>, p: T -> bool, k: nat)
    requires k < |s| && p(s[k])
    requires forall j :: 0 <= j < k ==> !p(s[j])
    ensures FirstIndex(s, p) == Some(k)
  {
  }

  /** `k` is the position of the first record with this id. */
  ghost predicate FirstWithId(medias: seq<Media>, id: int, k: int)
  {
    0 <= k < |medias| && medias[k].ID == id &&
    forall j :: 0 <= j < k ==> medias[j].ID != id
  }

  /** The record a by-id lookup resolves to: the first in store order with that id. */
  function FindById(medias: seq<Media>, id: int): (r: Option<Media>)
    ensures r.Some? ==> exists k :: FirstWithId(medias, id, k) && r.value == medias[k]
    ensures r.None? <==> forall k :: 0 <= k < |medias| ==> medias[k].ID != id
  {
    match FirstIndex(medias, (m: Media) => m.ID == id)
    case None => None
    case Some(k) =>
      assert FirstWithId(medias, id, k);
      Some(medias[k])
  }

  /** `a` can be obtained from `b` by deleting elements: it keeps their relative order. */
  predicate IsSubsequence<T(==)>(a: seq<T>, b: seq<T>)
    decreases |b|
  {
    a == [] ||
    (b != [] &&
     ((a[|a| - 1] == b[|b| - 1] && IsSubsequence(a[..|a| - 1], b[..|b| - 1])) ||
      IsSubsequence(a, b[..|b| - 1])))
  }
}
