/** The `User` object of Users.cs as a value: its fields, the property
    dictionary with its "absent reads as empty" convention, the three-letter
    codes for properties and statuses, and `MSNObject`. */
module Users {

  import opened Wrappers
  import opened Failures
  import opened Enums

  /** `MSNObject`: a struct around one string, null in `MSNObject.Empty`. */
  datatype MSNObject = MSNObject(data: Option<string>)

  const EmptyObject: MSNObject := MSNObject(None)

  /** `MSNObject.Parse`. */
  function ParseObject(s: Option<string>): (o: MSNObject)
    ensures o == EmptyObject <==> s.None?
  {
    MSNObject(s)
  }

  /** `MSNObject.ToString`. */
  function ObjectToString(o: MSNObject): (s: Option<string>)
    ensures s.None? <==> o == EmptyObject
  {
    o.data
  }

  /** `operator ==` on `MSNObject`: compares the wrapped strings. */
  function ObjectEquals(x: MSNObject, y: MSNObject): (b: bool)
    ensures b <==> x == y
  {
    ObjectToString(x) == ObjectToString(y)
  }

  /** Parsing and printing an `MSNObject` are inverse, so two objects are
      equal exactly when their strings are. */
  lemma ObjectRoundTrip(s: Option<string>, x: MSNObject, y: MSNObject)
    ensures ObjectToString(ParseObject(s)) == s
    ensures ParseObject(ObjectToString(x)) == x
    ensures ObjectEquals(x, y) <==> ObjectToString(x) == ObjectToString(y)
  {
  }

  /** The state of one `User` (or `LocalUser`) object. `guid` is the
      internal field the forward list fills in. */
  datatype User = User(
    loginName: string,
    nickname: Option<string>,
    status: UserStatus,
    displayPicture: MSNObject,
    capabilities: nat,
    properties: map<UserProperty, string>,
    guid: Option<string>)

  /** `new User(client, loginName)`: the nickname starts as the login name;
      status, picture and capabilities take their defaults. */
  function NewUser(loginName: string): (u: User)
    ensures u.loginName == loginName && u.nickname == Some(loginName)
    ensures u.status == Offline && u.displayPicture == EmptyObject && u.capabilities == 0
    ensures u.guid.None? && forall p :: GetProperty(u, p) == ""
  {
    User(loginName, Some(loginName), Offline, EmptyObject, 0, map[], None)
  }

  /** `GetPropertyInner`: an absent property reads as the empty string. */
  function GetProperty(u: User, p: UserProperty): (v: string)
    ensures p !in u.properties ==> v == ""
    ensures p in u.properties ==> v == u.properties[p]
  {
    if p in u.properties then u.properties[p] else ""
  }

  /** `SetPropertyInner`: the empty string deletes a stored property;
      otherwise the value is stored, and an empty value for an absent
      property is stored as an entry. */
  function SetProperty(u: User, p: UserProperty, v: string): (r: User)
    ensures GetProperty(r, p) == v
    ensures forall q :: q != p ==> GetProperty(r, q) == GetProperty(u, q)
    ensures p in r.properties <==> !(v == "" && p in u.properties)
    ensures r == u.(properties := r.properties)
  {
    if v == "" && p in u.properties then u.(properties := u.properties - {p})
    else u.(properties := u.properties[p := v])
  }

  /** Setting a property to the value it already reads as changes no
      reading, and setting it twice is setting it once. */
  lemma SetPropertyLaws(u: User, p: UserProperty, v: string, w: string)
    ensures forall q :: GetProperty(SetProperty(u, p, GetProperty(u, p)), q) == GetProperty(u, q)
    ensures forall q :: GetProperty(SetProperty(SetProperty(u, p, v), p, w), q) == GetProperty(SetProperty(u, p, w), q)
  {
  }

  /** `PropertyToString`. */
  function PropertyToString(p: UserProperty): (code: string)
    ensures |code| == 3
  {
    match p
    case HomePhone => "PHH"
    case WorkPhone => "PHW"
    case MobilePhone => "PHM"
    case AuthorizedMobile => "MOB"
    case MobileDevice => "MBE"
    case MSNDirectDevice => "WWE"
    case HasBlog => "HSB"
  }

  /** `StringToProperty`: any other code throws. */
  function StringToProperty(code: string): (r: Result<UserProperty, Failure>)
    ensures r.Err? <==> code !in {"PHH", "PHW", "PHM", "MOB", "MBE", "WWE", "HSB"}
    ensures r.Err? ==> r.error == NotSupported
  {
    match code
    case "PHH" => Ok(HomePhone)
    case "PHW" => Ok(WorkPhone)
    case "PHM" => Ok(MobilePhone)
    case "MOB" => Ok(AuthorizedMobile)
    case "MBE" => Ok(MobileDevice)
    case "WWE" => Ok(MSNDirectDevice)
    case "HSB" => Ok(HasBlog)
    case _ => Err(NotSupported)
  }

  /** The two property tables are inverse over the seven properties. */
  lemma PropertyCodes(p: UserProperty, code: string)
    ensures StringToProperty(PropertyToString(p)) == Ok(p)
    ensures StringToProperty(code) == Ok(p) ==> PropertyToString(p) == code
  {
  }

  /** `StatusToString`: every status but `Offline` has a code. */
  function StatusToString(s: UserStatus): (r: Result<string, Failure>)
    ensures r.Err? <==> s == Offline
    ensures r.Err? ==> r.error == NotSupported
    ensures r.Ok? ==> |r.value| == 3
  {
    match s
    case Online => Ok("NLN")
    case Away => Ok("AWY")
    case Busy => Ok("BSY")
    case BeRightBack => Ok("BRB")
    case Invisible => Ok("HDN")
    case Lunch => Ok("LUN")
    case Phone => Ok("PHN")
    case Idle => Ok("IDL")
    case Offline => Err(NotSupported)
  }

  /** `StringToStatus`: the codes above, and `FLN` for `Offline`. */
  function StringToStatus(code: string): (r: Result<UserStatus, Failure>)
    ensures r.Err? <==> code !in {"NLN", "AWY", "BSY", "BRB", "HDN", "LUN", "PHN", "IDL", "FLN"}
    ensures r.Err? ==> r.error == NotSupported
  {
    match code
    case "NLN" => Ok(Online)
    case "AWY" => Ok(Away)
    case "BSY" => Ok(Busy)
    case "BRB" => Ok(BeRightBack)
    case "HDN" => Ok(Invisible)
    case "LUN" => Ok(Lunch)
    case "PHN" => Ok(Phone)
    case "IDL" => Ok(Idle)
    case "FLN" => Ok(Offline)
    case _ => Err(NotSupported)
  }

  /** The status tables are inverse except at `Offline`, which has no
      outbound code but is what `FLN` reads as. */
  lemma StatusCodes(s: UserStatus, code: string)
    ensures s != Offline ==> StringToStatus(StatusToString(s).value) == Ok(s)
    ensures StringToStatus("FLN") == Ok(Offline)
    ensures StringToStatus(code) == Ok(s) && s != Offline ==> StatusToString(s) == Ok(code)
  {
  }

  // The value constants of Users.cs.
  const NoPhoneNumber: string := ""
  const MobileDeviceEnabled: string := "Y"
  const MobileDeviceDisabled: string := "N"
  const AuthorizedMobileEnabled: string := "Y"
  const AuthorizedMobileDisabled: string := "N"
  const MSNDirectDeviceEnabled: string := "2"
  const MSNDirectDeviceDisabled: string := "0"
}
