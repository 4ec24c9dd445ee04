/** The sign-in / sign-up form: the client-side checks run on submit (in
    order: phone, password, name), the payload sent when they pass, and the
    page a successful sign-in lands on, chosen from the token's roles. */
module AuthForm {
  import opened Domain

  /** The characters `String.prototype.trim` removes: ECMAScript white
      space (tab, vertical tab, form feed, space, no-break space, the
      Unicode space separators and the byte order mark) and line
      terminators (line feed, carriage return, line and paragraph
      separators). */
  const JsSpaces: set<char> := {
    '\U{9}', '\U{A}', '\U{B}', '\U{C}', '\U{D}', ' ', '\U{A0}', '\U{1680}',
    '\U{2000}', '\U{2001}', '\U{2002}', '\U{2003}', '\U{2004}', '\U{2005}',
    '\U{2006}', '\U{2007}', '\U{2008}', '\U{2009}', '\U{200A}',
    '\U{2028}', '\U{2029}', '\U{202F}', '\U{205F}', '\U{3000}', '\U{FEFF}'
  }

  predicate IsJsSpace(c: char) {
    c in JsSpaces
  }

  predicate AllSpace(s: string) {
    forall i :: 0 <= i < |s| ==> IsJsSpace(s[i])
  }

  /** The number of leading white-space characters. */
  function LeadingSpace(s: string): (k: nat)
    ensures k <= |s|
    ensures forall i :: 0 <= i < k ==> IsJsSpace(s[i])
    ensures k < |s| ==> !IsJsSpace(s[k])
    decreases |s|
  {
    if s == [] || !IsJsSpace(s[0]) then 0
    else
      var k := LeadingSpace(s[1..]);
      assert forall i :: 0 <= i < k ==> s[1..][i] == s[i + 1];
      k + 1
  }

  /** The number of trailing white-space characters. */
  function TrailingSpace(s: string): (k: nat)
    ensures k <= |s|
    ensures forall i :: |s| - k <= i < |s| ==> IsJsSpace(s[i])
    ensures k < |s| ==> !IsJsSpace(s[|s| - k - 1])
    decreases |s|
  {
    if s == [] || !IsJsSpace(s[|s| - 1]) then 0
    else
      var k := TrailingSpace(s[..|s| - 1]);
      assert forall i :: |s| - k - 1 <= i < |s| - 1 ==> s[..|s| - 1][i] == s[i];
      k + 1
  }

  /** `String.prototype.trim`: the middle of `s` between its leading and
      trailing white space. */
  function Trim(s: string): (r: string)
    ensures exists i, j :: 0 <= i <= j <= |s| && r == s[i..j] && AllSpace(s[..i]) && AllSpace(s[j..])
    ensures r == [] || (!IsJsSpace(r[0]) && !IsJsSpace(r[|r| - 1]))
  {
    var (a, b) := TrimBounds(s);
    assert forall k :: 0 <= k < a ==> s[..a][k] == s[k];
    assert forall k :: b <= k < |s| ==> s[b..][k - b] == s[k];
    s[a..b]
  }

  /** Where `trim` cuts: after the leading white space and before the
      trailing white space of what remains. */
  function TrimBounds(s: string): (r: (nat, nat))
    ensures r.0 <= r.1 <= |s|
    ensures forall k :: 0 <= k < r.0 ==> IsJsSpace(s[k])
    ensures forall k :: r.1 <= k < |s| ==> IsJsSpace(s[k])
    ensures r.0 < r.1 ==> !IsJsSpace(s[r.0]) && !IsJsSpace(s[r.1 - 1])
  {
    var a := LeadingSpace(s);
    var t := TrailingSpace(s[a..]);
    TrailingInPlace(s, a, t);
    (a, |s| - t)
  }

  /** The trailing white space of `s[a..]`, read in `s`'s own positions. */
  lemma TrailingInPlace(s: string, a: nat, t: nat)
    requires a <= |s| && t == TrailingSpace(s[a..])
    ensures |s| - t >= a
    ensures forall k :: |s| - t <= k < |s| ==> IsJsSpace(s[k])
    ensures |s| - t > a ==> !IsJsSpace(s[|s| - t - 1])
  {
    var rest := s[a..];
    forall k | |s| - t <= k < |s| ensures IsJsSpace(s[k]) {
      assert s[k] == rest[k - a];
    }
    if |s| - t > a {
      assert s[|s| - t - 1] == rest[|rest| - t - 1];
    }
  }

  /** A string of white space only trims to nothing. */
  lemma TrimAllSpace(s: string)
    requires AllSpace(s)
    ensures Trim(s) == []
  {
    var (i, j) := TrimBounds(s);
  }

  /** With white space only outside `[lo, hi)` and non-space at both ends
      of it, `trim` keeps exactly `[lo, hi)`. */
  lemma TrimKeeps(s: string, lo: nat, hi: nat)
    requires lo < hi <= |s|
    requires forall k :: 0 <= k < lo ==> IsJsSpace(s[k])
    requires forall k :: hi <= k < |s| ==> IsJsSpace(s[k])
    requires !IsJsSpace(s[lo]) && !IsJsSpace(s[hi - 1])
    ensures Trim(s) == s[lo..hi]
  {
    var (i, j) := TrimBounds(s);
    assert i <= lo < j;
    assert i == lo && j == hi;
  }

  /** Trimming white space off a core that neither starts nor ends with
      white space gives back the core. */
  lemma TrimPadded(left: string, core: string, right: string)
    requires AllSpace(left) && AllSpace(right)
    requires core == [] || (!IsJsSpace(core[0]) && !IsJsSpace(core[|core| - 1]))
    ensures Trim(left + core + right) == core
  {
    var s := left + core + right;
    if core == [] {
      assert s == left + right;
      TrimAllSpace(s);
    } else {
      var lo, hi := |left|, |left| + |core|;
      assert forall k :: 0 <= k < lo ==> s[k] == left[k];
      assert forall k :: hi <= k < |s| ==> s[k] == right[k - hi];
      assert s[lo] == core[0] && s[hi - 1] == core[|core| - 1];
      TrimKeeps(s, lo, hi);
      assert s[lo..hi] == core;
    }
  }

  /** Trimming twice is trimming once. */
  lemma TrimIdempotent(s: string)
    ensures Trim(Trim(s)) == Trim(s)
  {
    TrimPadded([], Trim(s), []);
    assert [] + Trim(s) + [] == Trim(s);
  }

  /** `\d` in a regular expression without the `u` flag: an ASCII digit. */
  predicate IsDigit(c: char) {
    '0' <= c <= '9'
  }

  /** `/^7\d{10}$/.test(p)`. */
  predicate MatchesPhonePattern(p: string) {
    |p| == 11 && p[0] == '7' && forall i :: 1 <= i < 11 ==> IsDigit(p[i])
  }

  /** Exactly ten ASCII digits. */
  predicate TenDigits(s: string) {
    |s| == 10 && forall i :: 0 <= i < |s| ==> IsDigit(s[i])
  }

  /** The phone field is accepted exactly when, trimmed, it is ten ASCII
      digits: the pattern's own leading `7` is always the prefix the form
      adds, so a typed `7` or `+7` makes the number too long. */
  lemma PhonePatternIffTenDigits(raw: string)
    ensures MatchesPhonePattern("7" + Trim(raw)) <==> TenDigits(Trim(raw))
  {
    var t := Trim(raw);
    var p := "7" + t;
    assert forall i :: 0 <= i < |t| ==> p[i + 1] == t[i];
  }

  /** The form's mode; `register` is the initial one. */
  datatype Mode = Register | Login

  datatype Form = Form(fullName: string, phone: string, password: string)

  /** Why the form refused to send, one reason per check. */
  datatype Rejection = BadPhone | ShortPassword | BadName

  /** The body sent: sign-in sends phone and password; sign-up sends the
      whole form with only the phone replaced. */
  datatype Payload =
    | LoginPayload(phone: string, password: string)
    | RegisterPayload(fullName: string, phone: string, password: string)

  datatype Outcome = Rejected(reason: Rejection) | Send(payload: Payload)

  const MinPasswordLength: nat := 6
  const MinNameLength: nat := 2

  /** The submit handler up to the request: the first failing check is
      reported; otherwise the payload for the mode is sent. */
  function Submit(mode: Mode, form: Form): (r: Outcome)
    ensures r == Rejected(BadPhone) <==> !TenDigits(Trim(form.phone))
    ensures r == Rejected(ShortPassword) <==>
      TenDigits(Trim(form.phone)) && |form.password| < MinPasswordLength
    ensures r == Rejected(BadName) <==>
      TenDigits(Trim(form.phone)) && |form.password| >= MinPasswordLength
      && mode == Register && |Trim(form.fullName)| < MinNameLength
    ensures r.Send? <==>
      TenDigits(Trim(form.phone)) && |form.password| >= MinPasswordLength
      && (mode == Register ==> |Trim(form.fullName)| >= MinNameLength)
    ensures r.Send? ==>
      && r.payload.phone == "7" + Trim(form.phone)
      && r.payload.password == form.password
      && (r.payload.RegisterPayload? <==> mode == Register)
      && (r.payload.RegisterPayload? ==> r.payload.fullName == form.fullName)
  {
    var phone := "7" + Trim(form.phone);
    PhonePatternIffTenDigits(form.phone);
    if !MatchesPhonePattern(phone) then Rejected(BadPhone)
    else if form.password == "" || |form.password| < MinPasswordLength then Rejected(ShortPassword)
    else if mode == Register && (form.fullName == "" || |Trim(form.fullName)| < MinNameLength) then Rejected(BadName)
    else if mode == Register then Send(RegisterPayload(form.fullName, phone, form.password))
    else Send(LoginPayload(phone, form.password))
  }

  /** A number typed with surrounding white space is accepted and sent
      without it, and a sign-in never checks the name. */
  lemma PaddedPhoneSignsIn(pad: string, digits: string, password: string)
    requires AllSpace(pad) && TenDigits(digits) && |password| >= MinPasswordLength
    ensures Submit(Login, Form("", pad + digits + pad, password))
         == Send(LoginPayload("7" + digits, password))
  {
    assert !IsJsSpace(digits[0]) && !IsJsSpace(digits[9]);
    TrimPadded(pad, digits, pad);
  }

  /** The pages a successful sign-in navigates to. */
  datatype Landing = AdminDashboard | EmployeeCalendar | UserDashboard

  function PathOf(l: Landing): string {
    match l
    case AdminDashboard => "/dashboard"
    case EmployeeCalendar => "/employee-calendar"
    case UserDashboard => "/user-dashboard"
  }

  /** `roles || []`, then admin before employee before everyone else. */
  function LandingFor(roles: Option<seq<string>>): (r: Landing)
    ensures r == AdminDashboard <==> HasRole(roles, "admin")
    ensures r == EmployeeCalendar <==> !HasRole(roles, "admin") && HasRole(roles, "employee")
    ensures r == UserDashboard <==> !HasRole(roles, "admin") && !HasRole(roles, "employee")
  {
    var rs := if roles.Some? then roles.value else [];
    if "admin" in rs then AdminDashboard
    else if "employee" in rs then EmployeeCalendar
    else UserDashboard
  }

  /** How far up the staff hierarchy a role reaches. */
  function RoleRank(role: string): nat {
    if role == "admin" then 2 else if role == "employee" then 1 else 0
  }

  function PageRank(l: Landing): nat {
    match l
    case AdminDashboard => 2
    case EmployeeCalendar => 1
    case UserDashboard => 0
  }

  /** The landing page is that of the highest-ranked role held: no held
      role outranks it, and a staff page is reached only through a role of
      that rank. */
  lemma LandingIsHighestRole(roles: Option<seq<string>>)
    ensures forall x :: HasRole(roles, x) ==> RoleRank(x) <= PageRank(LandingFor(roles))
    ensures PageRank(LandingFor(roles)) > 0 ==>
      exists x :: HasRole(roles, x) && RoleRank(x) == PageRank(LandingFor(roles))
  {
    if HasRole(roles, "admin") {
      assert RoleRank("admin") == 2;
    } else if HasRole(roles, "employee") {
      assert RoleRank("employee") == 1;
    }
  }

  /** Holding more roles never lands on a lower page, and the order in
      which the token lists the roles does not matter. */
  lemma LandingMonotone(rs: seq<string>, more: seq<string>, perm: seq<string>)
    requires multiset(perm) == multiset(rs)
    ensures PageRank(LandingFor(Some(rs))) <= PageRank(LandingFor(Some(rs + more)))
    ensures LandingFor(Some(perm)) == LandingFor(Some(rs))
    ensures LandingFor(None) == LandingFor(Some([])) == UserDashboard
  {
    forall x ensures x in perm <==> x in rs {
      assert x in perm <==> x in multiset(perm);
      assert x in rs <==> x in multiset(rs);
    }
  }
}
