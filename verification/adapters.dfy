/** The sign-in policy (`apps/users/adapters.py`): only institutional
    Google accounts may log in, sign-up is always open to them, and after
    login a student lands on the dashboard or, with an incomplete profile,
    on onboarding. */
module Adapters {
  import opened Base
  import opened Text
  import opened Domain
  import opened Visibility

  /** The e-mail suffix of the university's accounts. */
  const InstitutionalDomain: string := "@unsa.edu.pe"

  /** Where a refused social login is sent back to. */
  const GoogleLogin: string := "/accounts/google/login/"

  /** The pages a request can be redirected to. */
  datatype Landing = OnboardingPage | DashboardPage

  /** `pre_social_login`: `None` lets the login proceed; otherwise the
      login is cut short with a redirect to the Google login page. A
      missing address is the empty string. The suffix test is
      case-sensitive, exactly as `str.endswith`. */
  function PreSocialLogin(email: string): (r: Option<string>)
    ensures r.None? <==> email != [] && EndsWith(email, InstitutionalDomain)
    ensures r.Some? ==> r.value == GoogleLogin
  {
    if email == [] || !EndsWith(email, InstitutionalDomain) then Some(GoogleLogin) else None
  }

  /** Every institutional address is let through, whatever its local
      part. */
  lemma InstitutionalAddressesPass(local: string)
    ensures PreSocialLogin(local + InstitutionalDomain).None?
  {
    var e := local + InstitutionalDomain;
    assert e[|e| - |InstitutionalDomain|..] == InstitutionalDomain;
  }

  /** An address that passes is some local part followed by the
      institutional domain: the gate admits nothing else. */
  lemma PassingAddressesAreInstitutional(email: string)
    requires PreSocialLogin(email).None?
    ensures exists local :: email == local + InstitutionalDomain
  {
    var local := email[..|email| - |InstitutionalDomain|];
    assert email == local + InstitutionalDomain;
  }

  /** The test does not fold case: the domain in capitals is refused,
      whatever the local part. */
  lemma CapitalDomainRefused(local: string)
    ensures PreSocialLogin(local + "@UNSA.EDU.PE") == Some(GoogleLogin)
  {
    var e := local + "@UNSA.EDU.PE";
    assert e[|e| - 1] == 'E';
    assert e[|e| - |InstitutionalDomain|..][|InstitutionalDomain| - 1] == e[|e| - 1];
  }

  /** `is_open_for_signup`: sign-up is always open; the domain gate is
      `pre_social_login`'s alone. */
  function IsOpenForSignup(email: string): (r: bool)
    ensures r
  {
    true
  }

  /** A first login creates the account exactly when the address passes
      the gate: sign-up adds no condition of its own. */
  lemma SignupDecidedByGate(email: string)
    ensures (PreSocialLogin(email).None? && IsOpenForSignup(email)) <==>
            (email != [] && EndsWith(email, InstitutionalDomain))
  {
  }

  /** `get_login_redirect_url`: onboarding while the school, the student
      code or the phone number is missing, the dashboard otherwise. */
  function LoginRedirect(u: User): (r: Landing)
    ensures r == OnboardingPage <==> !ProfileComplete(u)
  {
    if u.school.None? || u.cui == [] || u.phone == [] then OnboardingPage else DashboardPage
  }

  /** The guard at the top of `onboarding_view`: a complete profile is
      sent to the dashboard, an incomplete one stays on the form. */
  function OnboardingEntry(u: User): (r: Landing)
    ensures r == DashboardPage <==> ProfileComplete(u)
  {
    if u.school.Some? && u.cui != [] && u.phone != [] then DashboardPage else OnboardingPage
  }

  /** Login never starts a redirect loop: it sends a student to the
      dashboard exactly when the dashboard serves them, and to onboarding
      exactly when onboarding keeps them. */
  lemma LoginLandsOnServingPage(st: Store, u: UserId)
    requires u in st.users
    ensures LoginRedirect(st.users[u]) == DashboardPage <==> Dashboard(st, u).Some?
    ensures LoginRedirect(st.users[u]) == OnboardingEntry(st.users[u])
  {
  }
}
