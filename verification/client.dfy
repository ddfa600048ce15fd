/** `Client`: a registered customer, built from request data only when its
    user name, phone and address pass validation, checked in that order.

    The two regular expressions of the class are written out as character
    predicates that follow their structure (`NameBody`, `PhoneBody`), and
    lemmas prove which strings they accept (`NameWord`, `PhoneWord`). */
module Client {
  import opened Wrappers

  // ---------------------------------------------------------------------------
  // Character classes and `blank?`
  // ---------------------------------------------------------------------------

  /** The Unicode White_Space characters, which `[[:space:]]` matches. */
  predicate IsSpace(c: char)
  {
    || ('\t' <= c <= '\r')
    || c == ' '
    || c == '\U{85}'
    || c == '\U{A0}'
    || c == '\U{1680}'
    || ('\U{2000}' <= c <= '\U{200A}')
    || c == '\U{2028}'
    || c == '\U{2029}'
    || c == '\U{202F}'
    || c == '\U{205F}'
    || c == '\U{3000}'
  }

  /** `blank?`: `nil`, or a string made only of white space (the empty string
      included). */
  predicate Blank(v: Option<string>)
  {
    match v
    case None => true
    case Some(s) => forall i | 0 <= i < |s| :: IsSpace(s[i])
  }

  /** `[_A-z0-9]`.  The range `A-z` runs from `A` to `z` and so also takes in
      `[`, `\`, `]`, `^`, `_` and the backtick. */
  predicate IsNameChar(c: char)
  {
    c == '_' || ('A' <= c <= 'z') || ('0' <= c <= '9')
  }

  /** `\d`: an ASCII digit. */
  predicate IsDigit(c: char)
  {
    '0' <= c <= '9'
  }

  // ---------------------------------------------------------------------------
  // VALID_NAME_REGEX = /\A[_A-z0-9]*((-)*[_A-z0-9])*\Z/
  // ---------------------------------------------------------------------------

  /** `((-)*[_A-z0-9])*`: no more groups, or one more group. */
  predicate DashGroups(s: string)
    decreases |s|, 1
  {
    |s| == 0 || DashGroup(s)
  }

  /** `(-)*[_A-z0-9]` followed by `((-)*[_A-z0-9])*`: a dash that stays in the
      current group, or the name character that closes it. */
  predicate DashGroup(s: string)
    decreases |s|, 0
  {
    |s| > 0 && ((s[0] == '-' && DashGroup(s[1..])) || (IsNameChar(s[0]) && DashGroups(s[1..])))
  }

  /** `[_A-z0-9]*((-)*[_A-z0-9])*`: one more leading name character, or the
      groups. */
  predicate NameBody(s: string)
  {
    DashGroups(s) || (|s| > 0 && IsNameChar(s[0]) && NameBody(s[1..]))
  }

  /** The whole expression: `\A` anchors the start, and `\Z` matches at the
      end of the string or just before one final newline. */
  predicate MatchesNameRegex(s: string)
  {
    NameBody(s) || (|s| > 0 && s[|s| - 1] == '\n' && NameBody(s[..|s| - 1]))
  }

  /** The language the name expression describes: name characters and dashes,
      not ending in a dash. */
  predicate NameWord(s: string)
  {
    && (forall i | 0 <= i < |s| :: IsNameChar(s[i]) || s[i] == '-')
    && (|s| == 0 || s[|s| - 1] != '-')
  }

  // ---------------------------------------------------------------------------
  // VALID_PHONE_REGEX = /\A(\d)+-?(\d)+\Z/
  // ---------------------------------------------------------------------------

  /** `(\d)+`. */
  predicate Digits(s: string)
  {
    |s| > 0 && forall i | 0 <= i < |s| :: IsDigit(s[i])
  }

  /** `-?(\d)+`. */
  predicate HyphenDigits(s: string)
  {
    Digits(s) || (|s| > 0 && s[0] == '-' && Digits(s[1..]))
  }

  /** `(\d)+-?(\d)+`: after each digit of the first run, either the run stops
      and `-?(\d)+` follows, or the run goes on. */
  predicate PhoneBody(s: string)
  {
    |s| > 0 && IsDigit(s[0]) && (HyphenDigits(s[1..]) || PhoneBody(s[1..]))
  }

  /** The whole expression, with the same `\Z` as the name expression. */
  predicate MatchesPhoneRegex(s: string)
  {
    PhoneBody(s) || (|s| > 0 && s[|s| - 1] == '\n' && PhoneBody(s[..|s| - 1]))
  }

  /** The language the phone expression describes: digits and at most one
      hyphen, at least two characters, a digit at both ends. */
  predicate PhoneWord(s: string)
  {
    && |s| >= 2
    && IsDigit(s[0])
    && IsDigit(s[|s| - 1])
    && (forall i | 0 <= i < |s| :: IsDigit(s[i]) || s[i] == '-')
    && (forall i, j | 0 <= i < j < |s| :: s[i] == '-' ==> s[j] != '-')
  }

  // ---------------------------------------------------------------------------
  // The validators and the constructor
  // ---------------------------------------------------------------------------

  const MinAddressLength: int := 5

  /** `valid_username?`. */
  predicate ValidUsername(v: Option<string>)
  {
    !Blank(v) && MatchesNameRegex(v.value)
  }

  /** `valid_phone?`. */
  predicate ValidPhone(v: Option<string>)
  {
    !Blank(v) && MatchesPhoneRegex(v.value)
  }

  /** `valid_address?`: `size` counts characters. */
  predicate ValidAddress(v: Option<string>)
  {
    !Blank(v) && |v.value| >= MinAddressLength
  }

  /** The error message raised with `InvalidParameterError`. */
  datatype ClientError = InvalidUsername | InvalidPhone | InvalidAddress

  /** The request data the constructor reads; `None` is a missing key. */
  datatype ClientData = ClientData(
    id: Option<int>,
    username: Option<string>,
    phone: Option<string>,
    address: Option<string>)

  datatype Client = Client(id: Option<int>, name: string, phone: string, address: string)

  /** `Client.new(data)`: the first failing check, in the order user name,
      phone, address, decides the error; otherwise every field is stored as
      given. */
  function NewClient(data: ClientData): (r: Result<Client, ClientError>)
    ensures r.Success? <==> ValidUsername(data.username) && ValidPhone(data.phone) && ValidAddress(data.address)
    ensures !ValidUsername(data.username) ==> r == Failure(InvalidUsername)
    ensures ValidUsername(data.username) && !ValidPhone(data.phone) ==> r == Failure(InvalidPhone)
    ensures ValidUsername(data.username) && ValidPhone(data.phone) && !ValidAddress(data.address) ==> r == Failure(InvalidAddress)
    ensures r.Success? ==>
              && Some(r.value.name) == data.username
              && Some(r.value.phone) == data.phone
              && Some(r.value.address) == data.address
              && r.value.id == data.id
  {
    if !ValidUsername(data.username) then Failure(InvalidUsername)
    else if !ValidPhone(data.phone) then Failure(InvalidPhone)
    else if !ValidAddress(data.address) then Failure(InvalidAddress)
    else Success(Client(data.id, data.username.value, data.phone.value, data.address.value))
  }

  /** `username?`. */
  predicate IsUsername(c: Client, username: string)
  {
    c.name == username
  }

  // ---------------------------------------------------------------------------
  // What the regular expressions accept
  // ---------------------------------------------------------------------------

  lemma {:induction false} DashGroupsIff(s: string)
    ensures DashGroups(s) <==> NameWord(s)
    ensures DashGroup(s) <==> |s| > 0 && NameWord(s)
    decreases |s|
  {
    if |s| > 0 {
      DashGroupsIff(s[1..]);
      assert forall i | 1 <= i < |s| :: s[i] == s[1..][i - 1];
    }
  }

  /** The name expression's body accepts exactly the name words. */
  lemma {:induction false} NameBodyIff(s: string)
    ensures NameBody(s) <==> NameWord(s)
    decreases |s|
  {
    DashGroupsIff(s);
    if |s| > 0 {
      NameBodyIff(s[1..]);
      assert forall i | 1 <= i < |s| :: s[i] == s[1..][i - 1];
    }
  }

  lemma {:induction false} PhoneBodyIff(s: string)
    ensures PhoneBody(s) <==> PhoneWord(s)
    decreases |s|
  {
    if |s| > 0 {
      var t := s[1..];
      assert forall i | 1 <= i < |s| :: s[i] == t[i - 1];
      PhoneBodyIff(t);
      if |t| > 0 && t[0] == '-' {
        assert forall i | 1 <= i < |t| :: t[i] == t[1..][i - 1];
      }
    }
  }

  /** Name words contain no white space. */
  lemma NameWordNotBlank(s: string)
    requires NameWord(s)
    requires |s| > 0
    ensures !Blank(Some(s))
  {
  }

  /** A user name is accepted exactly when it is a non-empty name word,
      possibly followed by one newline. */
  lemma ValidUsernameIff(s: string)
    ensures ValidUsername(Some(s)) <==>
              (|s| > 0 && NameWord(s))
              || (|s| > 1 && s[|s| - 1] == '\n' && NameWord(s[..|s| - 1]))
  {
    NameBodyIff(s);
    if |s| > 0 {
      NameBodyIff(s[..|s| - 1]);
      if NameWord(s) {
        NameWordNotBlank(s);
      } else if |s| > 1 && NameWord(s[..|s| - 1]) {
        NameWordNotBlank(s[..|s| - 1]);
        assert !IsSpace(s[0]);
      } else if |s| == 1 {
        assert NameBody(s) ==> NameWord(s);
      }
    }
  }

  /** A phone is accepted exactly when it is a phone word, possibly followed
      by one newline: so it has at least two digits, and a hyphen only between
      digits and at most once. */
  lemma ValidPhoneIff(s: string)
    ensures ValidPhone(Some(s)) <==>
              PhoneWord(s) || (|s| > 0 && s[|s| - 1] == '\n' && PhoneWord(s[..|s| - 1]))
  {
    PhoneBodyIff(s);
    if |s| > 0 {
      PhoneBodyIff(s[..|s| - 1]);
      if PhoneWord(s) || (s[|s| - 1] == '\n' && PhoneWord(s[..|s| - 1])) {
        assert IsDigit(s[0]) && !IsSpace(s[0]);
      }
    }
  }

  // ---------------------------------------------------------------------------
  // The constructor and `username?`
  // ---------------------------------------------------------------------------

  /** On a client built from `data`, `username?` holds exactly for the user
      name in `data`. */
  lemma IsUsernameOfNewClient(data: ClientData, u: string)
    requires NewClient(data).Success?
    ensures IsUsername(NewClient(data).value, u) <==> data.username == Some(u)
  {
  }

  lemma ExampleUsername()
    ensures ValidUsername(Some("jperez"))
  {
  }

  lemma ExamplePhone()
    ensures ValidPhone(Some("4123-4123"))
  {
  }

  lemma ExampleAddress()
    ensures ValidAddress(Some("Av Paseo Colón 840"))
  {
    assert !IsSpace("Av Paseo Colón 840"[0]);
  }

  /** The data the registration examples use is accepted, and stored as given. */
  lemma RegistrationExample()
    ensures NewClient(ClientData(None, Some("jperez"), Some("4123-4123"), Some("Av Paseo Colón 840")))
              == Success(Client(None, "jperez", "4123-4123", "Av Paseo Colón 840"))
  {
    ExampleUsername();
    ExamplePhone();
    ExampleAddress();
  }

  /** A user name ending in a dash is refused whatever the other fields are,
      while one ending in a newline gets through, newline included. */
  lemma UsernameEdgeCases(phone: Option<string>, address: Option<string>)
    ensures NewClient(ClientData(None, Some("jperez-"), phone, address)) == Failure(InvalidUsername)
    ensures ValidUsername(Some("jperez\n"))
  {
    ValidUsernameIff("jperez-");
    ValidUsernameIff("jperez\n");
    assert "jperez\n"[..6] == "jperez";
  }

  /** A phone with a doubled or a trailing hyphen is refused. */
  lemma PhoneEdgeCases()
    ensures !ValidPhone(Some("4123--4123"))
    ensures !ValidPhone(Some("4123-"))
    ensures !ValidPhone(Some("4"))
  {
    ValidPhoneIff("4123--4123");
    ValidPhoneIff("4123-");
    ValidPhoneIff("4");
    assert "4123--4123"[4] == '-' && "4123--4123"[5] == '-';
  }
}
