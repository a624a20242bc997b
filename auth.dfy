/**
 * The authorisation gate of the service: a user's level, read from the
 * request, is checked against the level a route requires; `admin` passes
 * every check, any other level passes only the route asking for exactly
 * that level, and a request without a level is an error.
 */
module Auth {
  import opened Wrappers
  import opened Js
  import opened Responses

  /** `AUTH_LEVELS_MAP.ADMIN`. */
  const Admin := "admin"
  /** `AUTH_LEVELS_MAP.WRITE`. */
  const Write := "write"

  /** The message of the error thrown for a user without a level. */
  const NoLevelMessage := "User does not have an authentication level set"

  /**
   * `checkAuthLevel(userLevel, requiredLevel)`: throws (Failure) when the
   * user has no level, grants an admin, and otherwise grants exactly when
   * the two levels are equal.
   */
  function CheckAuthLevel(userLevel: Value, requiredLevel: Value): (r: Result<bool, string>)
    ensures r.Failure? <==> !Truthy(userLevel)
    ensures r.Failure? ==> r.error == NoLevelMessage
    ensures r == Success(true) <==> Truthy(userLevel) && (userLevel == Str(Admin) || userLevel == requiredLevel)
  {
    if !Truthy(userLevel) then Failure(NoLevelMessage)
    else if userLevel == Str(Admin) then Success(true)
    else if userLevel != requiredLevel then Success(false)
    else Success(true)
  }

  /** `_.get(req, 'user.auth', '')`: the user's level, or the empty text when the path leads nowhere. */
  function UserAuth(req: Value): (level: Value)
    ensures level != Undefined
    ensures (req.Obj? && Get(req.fields, "user").Obj? && Get(Get(req.fields, "user").fields, "auth") != Undefined)
      ==> level == Get(Get(req.fields, "user").fields, "auth")
    ensures !req.Obj? || !Get(req.fields, "user").Obj? ==> level == Str("")
    ensures req.Obj? && Get(req.fields, "user").Obj? && Get(Get(req.fields, "user").fields, "auth") == Undefined
      ==> level == Str("")
  {
    if req.Obj? && Get(req.fields, "user").Obj? && Get(Get(req.fields, "user").fields, "auth") != Undefined
    then Get(Get(req.fields, "user").fields, "auth")
    else Str("")
  }

  /**
   * `withAuthLevel(requiredLevel)` applied to a request: passes it on when
   * the user's level is enough, responds 401 when it is not, and throws,
   * leaving the response alone, when the user has no level.
   */
  method WithAuthLevel(requiredLevel: Value, req: Value, format: Format, res: Response) returns (g: Gate)
    modifies res
    ensures g == Threw(NoLevelMessage) <==> !Truthy(UserAuth(req))
    ensures g == Next <==> CheckAuthLevel(UserAuth(req), requiredLevel) == Success(true)
    ensures g == Responded <==> CheckAuthLevel(UserAuth(req), requiredLevel) == Success(false)
    ensures g != Responded ==> res.status == old(res.status) && res.headers == old(res.headers) && res.body == old(res.body)
    ensures g == Responded ==>
      && res.status == Some(Num(401))
      && res.body == Some(ErrorBody(401, "Unauthorized request", format, map[]))
      && res.headers == old(res.headers)
  {
    match CheckAuthLevel(UserAuth(req), requiredLevel)
    case Failure(message) =>
      return Threw(message);
    case Success(granted) =>
      if granted {
        return Next;
      }
      Unauthorized(res, format);
      return Responded;
  }

  /** An admin passes whatever level a route requires. */
  lemma AdminPassesAll(requiredLevel: Value)
    ensures CheckAuthLevel(Str(Admin), requiredLevel) == Success(true)
  {
  }

  /**
   * The levels are not ordered: a user other than an admin passes only the
   * route asking for their own level, so a `write` user is turned away from
   * any other route.
   */
  lemma OnlyOwnLevel(userLevel: string, requiredLevel: Value)
    requires userLevel != "" && userLevel != Admin
    ensures CheckAuthLevel(Str(userLevel), requiredLevel) == Success(Str(userLevel) == requiredLevel)
  {
  }

  /** `checkAuthLevel('admin')` with no required level grants. */
  lemma ExampleAdmin(level: string)
    requires level == "admin"
    ensures CheckAuthLevel(Str(level), Undefined) == Success(true)
  {
  }

  /** `checkAuthLevel('')` throws. */
  lemma ExampleEmptyLevel(level: string)
    requires level == ""
    ensures CheckAuthLevel(Str(level), Undefined) == Failure(NoLevelMessage)
  {
  }

  /** `checkAuthLevel('noAdmin', 'admin')` denies and `checkAuthLevel('noAdmin', 'noAdmin')` grants. */
  lemma ExampleOtherLevel(level: string)
    requires level == "noAdmin"
    ensures CheckAuthLevel(Str(level), Str(Admin)) == Success(false)
    ensures CheckAuthLevel(Str(level), Str(level)) == Success(true)
  {
  }

  /** A request without a user (`{}`) has the empty level, so the gate throws. */
  lemma ExampleNoUser(req: Value)
    requires req == Obj(map[])
    ensures UserAuth(req) == Str("")
    ensures CheckAuthLevel(UserAuth(req), Str(Write)).Failure?
  {
  }

  /** A request from a `write` user passes a `write` route and is denied an `admin` one. */
  lemma ExampleWriteUser(req: Value)
    requires req == Obj(map["user" := Obj(map["auth" := Str(Write)])])
    ensures CheckAuthLevel(UserAuth(req), Str(Write)) == Success(true)
    ensures CheckAuthLevel(UserAuth(req), Str(Admin)) == Success(false)
  {
    assert UserAuth(req) == Str(Write);
  }
}
