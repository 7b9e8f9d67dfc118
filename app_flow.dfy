/**
 * AuthenticatedAppFlow.tsx: which screen a logged-in caller sees, decided by
 * an ordered chain of tests over the state of the role query and the profile
 * query.  A query's `data` is `undefined` until it has settled; the profile
 * query settles to `null` when the caller has no profile yet.
 */
module AppFlow {
  import opened Wrappers
  import opened Backend

  /** The `data` of the profile query: not yet there, `null`, or a profile. */
  datatype ProfileData = Undefined | Null | Loaded(profile: UserProfile)

  /** The state of the two queries that the component reads. */
  datatype Queries = Queries(
    roleError: bool,
    roleLoading: bool,
    /** `None` while the role query's `data` is `undefined`. */
    userRole: Option<UserRole>,
    profileError: bool,
    profileFetched: bool,
    userProfile: ProfileData)

  datatype Screen = RoleErrorScreen | ProfileErrorScreen | LoadingScreen | RoleChoiceScreen | OnboardingScreen | AppShellScreen

  /** `userRole && userRole !== UserRole.guest`: the role is known and is not guest (the enum values are non-empty strings). */
  predicate HasRealRole(q: Queries) {
    q.userRole.Some? && q.userRole.value != Guest
  }

  /**
   * The component's if-chain.  Each screen is chosen under exactly the
   * condition stated for it here, independently of the order of the chain.
   */
  function ChooseScreen(q: Queries): (s: Screen)
    ensures s == RoleErrorScreen <==> q.roleError
    ensures s == ProfileErrorScreen <==> !q.roleError && HasRealRole(q) && q.profileError
    ensures s == LoadingScreen <==> !q.roleError && !(HasRealRole(q) && q.profileError) && q.roleLoading
    ensures s == RoleChoiceScreen <==> !q.roleError && !q.roleLoading && q.userRole == Some(Guest)
    ensures s == OnboardingScreen <==>
      && !q.roleError && !q.profileError && !q.roleLoading
      && HasRealRole(q) && q.profileFetched && q.userProfile == Null
    ensures s == AppShellScreen <==>
      && !q.roleError && !q.roleLoading
      && (q.userRole.None? ||
          (q.userRole.value != Guest && !q.profileError && !(q.profileFetched && q.userProfile == Null)))
  {
    if q.roleError then RoleErrorScreen
    else if q.userRole.Some? && q.userRole.value != Guest && q.profileError then ProfileErrorScreen
    else if q.roleLoading then LoadingScreen
    else if q.userRole == Some(Guest) then RoleChoiceScreen
    else if q.userRole.Some? && q.profileFetched && q.userProfile == Null then OnboardingScreen
    else AppShellScreen
  }

  /** A profile that is still `undefined` never leads to onboarding: a caller with a real role then gets the app shell. */
  lemma UndefinedProfileGoesToApp(q: Queries)
    requires !q.roleError && !q.roleLoading && HasRealRole(q) && !q.profileError
    requires q.userProfile == Undefined
    ensures ChooseScreen(q) == AppShellScreen
  {
  }

  /** A profile error is invisible to a guest and to a caller whose role has not arrived. */
  lemma ProfileErrorNeedsRealRole(q: Queries)
    requires !HasRealRole(q)
    ensures ChooseScreen(q) != ProfileErrorScreen
    ensures ChooseScreen(q) == ChooseScreen(q.(profileError := false))
  {
  }
}
