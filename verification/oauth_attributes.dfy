/** `OAuthAttributes`: the profile built from a federated provider's raw
    attribute map, and the guest member entity built from that profile. */
module OAuthAttributes {
  import opened Common

  /** A value of the provider's `Map<String, Object>`: null, a `String`, or
      some other object (a number, a boolean, a nested map), described only by
      its class name. */
  datatype AttrValue = Null | Text(s: string) | NonText(className: string)

  type Attributes = map<string, AttrValue>

  /** The profile object: the raw map, the caller's name-attribute key, and
      the three extracted fields. */
  datatype OAuthProfile = OAuthProfile(
    attributes: Attributes,
    nameAttributeKey: Option<string>,
    name: Option<string>,
    email: Option<string>,
    picture: Option<string>)

  /** The roles an `OauthMemberInfoEntity` can carry; only `GUEST` is ever set
      here. */
  datatype Role = Guest

  /** The fields of `OauthMemberInfoEntity` that `toEntity` sets. */
  datatype OauthMember = OauthMember(
    name: Option<string>,
    email: Option<string>,
    picture: Option<string>,
    role: Option<Role>)

  /** The key can be read as a Java `String`: it is absent, maps to null, or
      maps to a string. */
  predicate CastsToString(attributes: Attributes, key: string)
  {
    key !in attributes || !attributes[key].NonText?
  }

  /** The string held under the key; null when the key is absent or maps to
      null or to a non-string. */
  function TextAt(attributes: Attributes, key: string): Option<string>
  {
    if key in attributes && attributes[key].Text? then Some(attributes[key].s) else None
  }

  /** `(String) attributes.get(key)`: absent keys and null values give null;
      a value of another class raises `ClassCastException`. */
  function GetString(attributes: Attributes, key: string): (r: Result<Option<string>>)
    ensures r.Success? <==> CastsToString(attributes, key)
    ensures r.Success? ==> r.value == TextAt(attributes, key)
    ensures r.Failure? ==> r.error == ClassCast(key)
  {
    if key !in attributes then Success(None)
    else match attributes[key]
      case Null => Success(None)
      case Text(s) => Success(Some(s))
      case NonText(_) => Failure(ClassCast(key))
  }

  /** `ofGoogle`: reads "name", "email" and "picture", in that order, and
      keeps the whole map and the caller's key. */
  function OfGoogle(userNameAttributeName: Option<string>, attributes: Attributes): (r: Result<OAuthProfile>)
    ensures r.Success? <==>
      CastsToString(attributes, "name") && CastsToString(attributes, "email") && CastsToString(attributes, "picture")
    ensures r.Success? ==>
      && r.value.name == TextAt(attributes, "name")
      && r.value.email == TextAt(attributes, "email")
      && r.value.picture == TextAt(attributes, "picture")
      && r.value.attributes == attributes
      && r.value.nameAttributeKey == userNameAttributeName
    ensures r.Failure? ==>
      r.error == ClassCast(if !CastsToString(attributes, "name") then "name"
                           else if !CastsToString(attributes, "email") then "email"
                           else "picture")
  {
    match GetString(attributes, "name")
    case Failure(e) => Failure(e)
    case Success(name) =>
      match GetString(attributes, "email")
      case Failure(e) => Failure(e)
      case Success(email) =>
        match GetString(attributes, "picture")
        case Failure(e) => Failure(e)
        case Success(picture) =>
          Success(OAuthProfile(attributes, userNameAttributeName, name, email, picture))
  }

  /** `of`: the provider id is not consulted; every provider is read the
      Google way. */
  function Of(registrationId: Option<string>, userNameAttributeName: Option<string>, attributes: Attributes)
    : (r: Result<OAuthProfile>)
    ensures r.Success? <==>
      CastsToString(attributes, "name") && CastsToString(attributes, "email") && CastsToString(attributes, "picture")
    ensures r.Success? ==>
      && r.value.name == TextAt(attributes, "name")
      && r.value.email == TextAt(attributes, "email")
      && r.value.picture == TextAt(attributes, "picture")
      && r.value.attributes == attributes
      && r.value.nameAttributeKey == userNameAttributeName
    ensures r.Failure? ==>
      r.error == ClassCast(if !CastsToString(attributes, "name") then "name"
                           else if !CastsToString(attributes, "email") then "email"
                           else "picture")
  {
    OfGoogle(userNameAttributeName, attributes)
  }

  /** `toEntity`: name, email and picture copied, role `GUEST`. */
  function ToEntity(p: OAuthProfile): (r: OauthMember)
    ensures r.name == p.name && r.email == p.email && r.picture == p.picture
    ensures r.role == Some(Guest)
  {
    OauthMember(p.name, p.email, p.picture, Some(Guest))
  }

  /** The provider id never changes the profile. */
  lemma OfIgnoresRegistrationId(a: Option<string>, b: Option<string>, key: Option<string>, attributes: Attributes)
    ensures Of(a, key, attributes) == Of(b, key, attributes)
  {
  }

  /** Keys other than the three read ones neither change the extracted fields
      nor cause a failure; they are only carried along in the raw map. */
  lemma ExtraKeysOnlyCarried(key: Option<string>, attributes: Attributes, k: string, v: AttrValue)
    requires k != "name" && k != "email" && k != "picture"
    ensures Of(None, key, attributes[k := v]).Success? <==> Of(None, key, attributes).Success?
    ensures Of(None, key, attributes).Success? ==>
      && Of(None, key, attributes[k := v]).value
         == Of(None, key, attributes).value.(attributes := attributes[k := v])
      && Of(None, key, attributes[k := v]).value.attributes[k] == v
  {
  }

  /** From a raw map to the guest entity: the entity's fields are the map's
      strings under "name", "email" and "picture", null where missing. */
  lemma GuestFromAttributes(registrationId: Option<string>, key: Option<string>, attributes: Attributes)
    requires CastsToString(attributes, "name") && CastsToString(attributes, "email")
    requires CastsToString(attributes, "picture")
    ensures Of(registrationId, key, attributes).Success?
    ensures ToEntity(Of(registrationId, key, attributes).value)
         == OauthMember(TextAt(attributes, "name"), TextAt(attributes, "email"),
                        TextAt(attributes, "picture"), Some(Guest))
  {
  }

  /** The worked case: name, email, picture and an unrelated numeric entry. */
  lemma OfSample(key: Option<string>)
    ensures var attrs := map["name" := Text("Ann"), "email" := Text("a@x.com"),
                             "picture" := Text("p.png"), "other" := NonText("Integer")];
      && Of(Some("google"), key, attrs)
         == Success(OAuthProfile(attrs, key, Some("Ann"), Some("a@x.com"), Some("p.png")))
      && "other" in Of(Some("google"), key, attrs).value.attributes
  {
  }
}
