/**
  Vocabulary shared by every handler of the results service: optional
  values, record ids, HTTP statuses, roles and the authenticated caller.
 */
module Common {

  /**
    A missing value or a present one. Request fields the source only tests
    for truthiness are `Option`s: `undefined` and `null` are both `None`.
   */
  datatype Option<+T> = None | Some(value: T) {
    function GetOr(default: T): T {
      match this
      case Some(v) => v
      case None => default
    }
  }

  /**
    A request field the source tests with `=== undefined`: there an
    explicit `null` is not missing, so the field keeps the two apart.
   */
  datatype Field<+T> = Undefined | Null | Given(value: T) {
    /** `field !== undefined`. */
    predicate Defined() {
      !Undefined?
    }

    /** The value, when one was given. */
    function ToOption(): (o: Option<T>)
      ensures o.Some? <==> Given?
      ensures Given? ==> o.value == value
    {
      if Given? then Some(value) else None
    }
  }

  /** Document ids. Fresh ids are handed out in increasing order, as ObjectIds are. */
  type Id = nat

  /** The status codes the controllers answer with. */
  datatype Status =
    | Ok           // 200
    | Created      // 201
    | BadRequest   // 400
    | Unauthorized // 401
    | Forbidden    // 403
    | NotFound     // 404
    | Conflict     // 409
    | ServerError  // 500
  {
    function Code(): (c: int)
      ensures 200 <= c < 600
      ensures (c < 300) == (this == Ok || this == Created)
    {
      match this
      case Ok => 200
      case Created => 201
      case BadRequest => 400
      case Unauthorized => 401
      case Forbidden => 403
      case NotFound => 404
      case Conflict => 409
      case ServerError => 500
    }
  }

  /** The user roles of the user schema's enum. */
  datatype Role = StudentRole | AdminRole | InstructorRole

  /** What the token middleware attaches as `req.user`; a token may lack a role. */
  datatype Caller = Caller(userId: Id, role: Option<Role>)

  /** JavaScript truthiness of an optional string field: present and non-empty. */
  predicate Truthy(s: Option<string>) {
    s.Some? && s.value != ""
  }

  /** `value || "-"`: the placeholder the views show for a missing text. */
  function OrDash(o: Option<string>): string {
    if Truthy(o) then o.value else "-"
  }

  /**
    The `ensureAdmin` / `ensureTeacher` / `ensureStudent` guard every
    controller repeats: a request passes only with a caller whose role is
    exactly `role`.
   */
  function Ensure(user: Option<Caller>, role: Role): (pass: bool)
    ensures pass <==> exists c :: user == Some(c) && c.role == Some(role)
  {
    match user
    case None => false
    case Some(c) => assert user == Some(c); c.role == Some(role)
  }
}
