/**
 * The account and subscription bookkeeping of auth.js (`AuthManager`).
 * Users are kept in registration order, as the source's `Map` iterates
 * them; subscriptions and referral records are maps keyed by user id.
 * Fresh ids, referral codes and the current time are inputs, since the
 * source draws them from `Math.random` and `Date`; localStorage is left out.
 */
module Auth {
  import opened Util

  /** A month of the calendar, January being 0 as in JavaScript's `Date`. */
  type Month = m: int | 0 <= m < 12

  /** A point in time: a calendar month and the time elapsed within it. */
  datatype Instant = Instant(year: int, month: Month, offset: nat)

  /** `a <= b` in time. */
  predicate NotAfter(a: Instant, b: Instant) {
    a.year < b.year || (a.year == b.year && (a.month < b.month || (a.month == b.month && a.offset <= b.offset)))
  }

  /** `setMonth(getMonth() + n)`, carrying into the year; the day-of-month overflow of short months is not modelled. */
  function AddMonths(t: Instant, n: nat): (r: Instant)
    ensures r.offset == t.offset
    ensures 12 * r.year + r.month == 12 * t.year + t.month + n
  {
    var m := t.month + n;
    Instant(t.year + m / 12, m % 12, t.offset)
  }

  /** A month later is strictly later; twelve months later is `setFullYear(getFullYear() + 1)`. */
  lemma AddMonthsLater(t: Instant, n: nat)
    ensures NotAfter(t, AddMonths(t, n))
    ensures n > 0 ==> !NotAfter(AddMonths(t, n), t)
    ensures AddMonths(t, 12) == Instant(t.year + 1, t.month, t.offset)
  {
  }

  datatype User = User(id: string, email: string, password: string, referralCode: string, referredBy: Option<string>)

  datatype Status = Inactive | Active

  datatype Subscription = Subscription(
    userId: string,
    status: Status,
    plan: string,
    startDate: Option<Instant>,
    endDate: Option<Instant>,
    freeWeeks: int)

  datatype Referral = Referral(referredUserId: string, referredEmail: string, date: Instant)

  datatype State = State(
    enabled: bool,
    currentUser: Option<User>,
    users: seq<User>,
    subscriptions: map<string, Subscription>,
    referrals: map<string, seq<Referral>>)

  datatype Result<T> = Success(value: T) | Failure(error: string)

  /** The constructor with nothing stored: the subscription system switched off, nobody signed in. */
  function Initial(): State {
    State(false, None, [], map[], map[])
  }

  /** JavaScript truthiness of an optional string: `null` and `""` are false. */
  predicate Truthy(s: Option<string>) {
    s.Some? && s.value != ""
  }

  /** `users.get(email)`: the user registered under `email`, if any. */
  function FindByEmail(users: seq<User>, email: string): (r: Option<User>)
    ensures r.Some? ==> r.value in users && r.value.email == email
    ensures r.None? <==> forall i :: 0 <= i < |users| ==> users[i].email != email
  {
    if |users| == 0 then None
    else if users[0].email == email then Some(users[0])
    else FindByEmail(users[1..], email)
  }

  /** `findUserByReferralCode`: the first user, in registration order, holding `code`. */
  function FindByReferralCode(users: seq<User>, code: string): (r: Option<User>)
    ensures r.Some? ==> r.value in users && r.value.referralCode == code
    ensures r.None? <==> forall i :: 0 <= i < |users| ==> users[i].referralCode != code
    ensures r.Some? ==> exists i :: 0 <= i < |users| && users[i] == r.value && NoHolderBefore(users, code, i)
  {
    if |users| == 0 then None
    else if users[0].referralCode == code then
      assert NoHolderBefore(users, code, 0);
      Some(users[0])
    else
      var r := FindByReferralCode(users[1..], code);
      if r.Some? then
        var i :| 0 <= i < |users| - 1 && users[1..][i] == r.value && NoHolderBefore(users[1..], code, i);
        assert NoHolderBefore(users, code, i + 1);
        r
      else r
  }

  /** No user registered before position `i` holds `code`. */
  predicate NoHolderBefore(users: seq<User>, code: string, i: int) {
    forall j :: 0 <= j < i && j < |users| ==> users[j].referralCode != code
  }

  /** The new account's subscription: inactive, monthly, no dates, no free weeks. */
  function FreshSubscription(id: string): Subscription {
    Subscription(id, Inactive, "monthly", None, None, 0)
  }

  /** The referrer's reward: one more free week if they have a subscription, and one more referral record. */
  function Credit(s: State, referrer: User, record: Referral): State {
    s.(subscriptions :=
         if referrer.id in s.subscriptions
         then s.subscriptions[referrer.id := s.subscriptions[referrer.id].(freeWeeks := s.subscriptions[referrer.id].freeWeeks + 1)]
         else s.subscriptions,
       referrals := s.referrals[referrer.id := (if referrer.id in s.referrals then s.referrals[referrer.id] else []) + [record]])
  }

  /** The referrer a registration with `code` rewards, if any. */
  function Referrer(s: State, code: Option<string>): Option<User> {
    if Truthy(code) then FindByReferralCode(s.users, code.value) else None
  }

  /**
   * `register`: refused for an email already registered; otherwise the
   * referrer named by the code, if one holds it, is credited, and the new
   * user and their fresh subscription are stored.
   */
  function Register(s: State, email: string, password: string, code: Option<string>, newId: string, newCode: string, now: Instant): (r: Result<State>)
    ensures r.Failure? <==> exists i :: 0 <= i < |s.users| && s.users[i].email == email
    ensures r.Success? ==>
      && r.value.users == s.users + [User(newId, email, password, newCode, code)]
      && newId in r.value.subscriptions && r.value.subscriptions[newId] == FreshSubscription(newId)
      && r.value.currentUser == s.currentUser && r.value.enabled == s.enabled
  {
    if FindByEmail(s.users, email).Some? then Failure("User already exists with this email")
    else
      var user := User(newId, email, password, newCode, code);
      var credited := match Referrer(s, code)
        case Some(referrer) => Credit(s, referrer, Referral(newId, email, now))
        case None => s;
      Success(credited.(users := credited.users + [user], subscriptions := credited.subscriptions[newId := FreshSubscription(newId)]))
  }

  /** A code nobody holds, or no code, leaves every existing subscription and every referral record as it was. */
  lemma UnknownCodeCreditsNobody(s: State, email: string, password: string, code: Option<string>, newId: string, newCode: string, now: Instant)
    requires Register(s, email, password, code, newId, newCode, now).Success?
    requires !Truthy(code) || forall i :: 0 <= i < |s.users| ==> s.users[i].referralCode != code.value
    ensures var t := Register(s, email, password, code, newId, newCode, now).value;
      && t.subscriptions == s.subscriptions[newId := FreshSubscription(newId)]
      && t.referrals == s.referrals
  {
  }

  /**
   * A code held by a registered user with a subscription gives that user
   * exactly one more free week and exactly one more referral record, naming
   * the new user; every other subscription is untouched.
   */
  lemma ReferralCreditsReferrer(s: State, email: string, password: string, code: string, newId: string, newCode: string, now: Instant, referrer: User)
    requires Register(s, email, password, Some(code), newId, newCode, now).Success?
    requires code != "" && FindByReferralCode(s.users, code) == Some(referrer)
    requires referrer.id in s.subscriptions && referrer.id != newId
    ensures var t := Register(s, email, password, Some(code), newId, newCode, now).value;
      && t.subscriptions[referrer.id].freeWeeks == s.subscriptions[referrer.id].freeWeeks + 1
      && (forall id :: id in s.subscriptions && id != referrer.id && id != newId ==> id in t.subscriptions && t.subscriptions[id] == s.subscriptions[id])
      && t.referrals[referrer.id] == ReferralsOf(s, referrer.id) + [Referral(newId, email, now)]
      && (forall id :: id != referrer.id ==> ReferralsOf(t, id) == ReferralsOf(s, id))
  {
  }

  /** The referral records kept for `id`, none when there is no entry. */
  function ReferralsOf(s: State, id: string): seq<Referral> {
    if id in s.referrals then s.referrals[id] else []
  }

  /** `login`: succeeds exactly for a registered email with the matching password, and signs that user in. */
  function Login(s: State, email: string, password: string): (r: Result<State>)
    ensures r.Success? <==> exists i :: 0 <= i < |s.users| && s.users[i].email == email && FindByEmail(s.users, email).value.password == password
    ensures r.Success? ==> r.value == s.(currentUser := FindByEmail(s.users, email)) && r.value.currentUser.value.email == email
  {
    match FindByEmail(s.users, email)
    case None => Failure("Invalid email or password")
    case Some(user) => if user.password != password then Failure("Invalid email or password") else Success(s.(currentUser := Some(user)))
  }

  /** `logout`: nobody is signed in afterwards; nothing else changes. */
  function Logout(s: State): (r: State)
    ensures r.currentUser.None?
    ensures r.users == s.users && r.subscriptions == s.subscriptions && r.referrals == s.referrals
  {
    s.(currentUser := None)
  }

  /** Registered accounts have distinct emails, as the keys of the source's map. */
  ghost predicate DistinctEmails(users: seq<User>) {
    forall i, j :: 0 <= i < j < |users| ==> users[i].email != users[j].email
  }

  lemma RegisterKeepsDistinct(s: State, email: string, password: string, code: Option<string>, newId: string, newCode: string, now: Instant)
    requires DistinctEmails(s.users)
    requires Register(s, email, password, code, newId, newCode, now).Success?
    ensures DistinctEmails(Register(s, email, password, code, newId, newCode, now).value.users)
  {
  }

  lemma {:induction false} FindByEmailLast(users: seq<User>, u: User)
    requires forall i :: 0 <= i < |users| ==> users[i].email != u.email
    ensures FindByEmail(users + [u], u.email) == Some(u)
    decreases |users|
  {
    if |users| > 0 {
      assert (users + [u])[1..] == users[1..] + [u];
      FindByEmailLast(users[1..], u);
    }
  }

  /** Registering then logging in with the same email and password signs the new user in. */
  lemma RegisterThenLogin(s: State, email: string, password: string, code: Option<string>, newId: string, newCode: string, now: Instant)
    requires Register(s, email, password, code, newId, newCode, now).Success?
    ensures var t := Register(s, email, password, code, newId, newCode, now).value;
      && Login(t, email, password).Success?
      && Login(t, email, password).value.currentUser == Some(User(newId, email, password, newCode, code))
      && Logout(Login(t, email, password).value).currentUser.None?
  {
    var t := Register(s, email, password, code, newId, newCode, now).value;
    FindByEmailLast(s.users, User(newId, email, password, newCode, code));
    assert t.users[|s.users|].email == email;
  }

  /** The user id an operation acts on: the argument when given, otherwise the signed-in user's. */
  function Target(s: State, userId: Option<string>): (r: Option<string>)
    ensures r.Some? ==> r.value != ""
    ensures Truthy(userId) ==> r == userId
  {
    if Truthy(userId) then userId
    else if s.currentUser.Some? && s.currentUser.value.id != "" then Some(s.currentUser.value.id)
    else None
  }

  /** `getUserSubscription`. */
  function GetUserSubscription(s: State, userId: Option<string>): (r: Option<Subscription>)
    ensures r.Some? <==> Target(s, userId).Some? && Target(s, userId).value in s.subscriptions
    ensures r.Some? ==> r.value == s.subscriptions[Target(s, userId).value]
  {
    match Target(s, userId)
    case None => None
    case Some(t) => if t in s.subscriptions then Some(s.subscriptions[t]) else None
  }

  /**
   * `hasActiveSubscription`: everyone has access while the system is
   * switched off; otherwise a subscription is needed, and it grants access
   * with a free week left or while it is active and `now` has not passed its end.
   */
  function HasActiveSubscription(s: State, userId: Option<string>, now: Instant): (r: bool)
    ensures !s.enabled ==> r
    ensures s.enabled ==> (r <==>
      var sub := GetUserSubscription(s, userId);
      sub.Some? && (sub.value.freeWeeks > 0 || (sub.value.status == Active && sub.value.endDate.Some? && NotAfter(now, sub.value.endDate.value))))
  {
    if !s.enabled then true
    else match GetUserSubscription(s, userId)
      case None => false
      case Some(sub) =>
        if sub.freeWeeks > 0 then true
        else if sub.status == Active && sub.endDate.Some? then NotAfter(now, sub.endDate.value)
        else false
  }

  /** The end date `startSubscription` sets: a month on, a year on, or `now` itself for any other plan name. */
  function PlanEnd(plan: string, now: Instant): Instant {
    if plan == "monthly" then AddMonths(now, 1)
    else if plan == "yearly" then AddMonths(now, 12)
    else now
  }

  /** `startSubscription`: refused without a subscription; otherwise it becomes active on `plan` from `now` to the plan's end. */
  function StartSubscription(s: State, userId: string, plan: string, now: Instant): (r: Result<State>)
    ensures r.Failure? <==> userId !in s.subscriptions
    ensures r.Success? ==> r.value.users == s.users && r.value.referrals == s.referrals && r.value.currentUser == s.currentUser
    ensures r.Success? ==> userId in r.value.subscriptions && r.value.subscriptions.Keys == s.subscriptions.Keys
    ensures r.Success? ==> forall id :: id in s.subscriptions && id != userId ==> r.value.subscriptions[id] == s.subscriptions[id]
  {
    if userId !in s.subscriptions then Failure("No subscription found for user")
    else
      var sub := s.subscriptions[userId];
      var started := sub.(status := Active, plan := plan, startDate := Some(now), endDate := Some(PlanEnd(plan, now)));
      Success(s.(subscriptions := s.subscriptions[userId := started]))
  }

  /**
   * After a monthly or yearly start, access at a time `t` from `now` on
   * lasts exactly until the plan's end, or longer while free weeks remain.
   */
  lemma StartedGrantsAccessUntilEnd(s: State, userId: string, plan: string, now: Instant, t: Instant)
    requires StartSubscription(s, userId, plan, now).Success? && userId != ""
    requires s.enabled
    ensures var after := StartSubscription(s, userId, plan, now).value;
      HasActiveSubscription(after, Some(userId), t) <==> s.subscriptions[userId].freeWeeks > 0 || NotAfter(t, PlanEnd(plan, now))
    ensures HasActiveSubscription(StartSubscription(s, userId, plan, now).value, Some(userId), now)
  {
    AddMonthsLater(now, 1);
    AddMonthsLater(now, 12);
  }

  /** `useFreeWeek`: spends one free week of the target user if there is one to spend. */
  function UseFreeWeek(s: State, userId: Option<string>): (r: (bool, State))
    ensures !r.0 ==> r.1 == s
    ensures r.0 <==> GetUserSubscription(s, userId).Some? && GetUserSubscription(s, userId).value.freeWeeks > 0
    ensures r.0 ==> var t := Target(s, userId).value;
      && r.1 == s.(subscriptions := s.subscriptions[t := s.subscriptions[t].(freeWeeks := s.subscriptions[t].freeWeeks - 1)])
  {
    match Target(s, userId)
    case None => (false, s)
    case Some(t) =>
      if t !in s.subscriptions || s.subscriptions[t].freeWeeks <= 0 then (false, s)
      else (true, s.(subscriptions := s.subscriptions[t := s.subscriptions[t].(freeWeeks := s.subscriptions[t].freeWeeks - 1)]))
  }

  /**
   * A referral's week can be spent: a referrer who had no free weeks gets
   * one from the new registration, spends it, and is back to none.
   */
  lemma ReferralWeekCanBeSpent(s: State, email: string, password: string, code: string, newId: string, newCode: string, now: Instant, referrer: User)
    requires Register(s, email, password, Some(code), newId, newCode, now).Success?
    requires code != "" && FindByReferralCode(s.users, code) == Some(referrer)
    requires referrer.id in s.subscriptions && referrer.id != newId && referrer.id != ""
    requires s.subscriptions[referrer.id].freeWeeks == 0
    ensures var t := Register(s, email, password, Some(code), newId, newCode, now).value;
      var (spent, u) := UseFreeWeek(t, Some(referrer.id));
      spent && u.subscriptions[referrer.id].freeWeeks == 0 && !UseFreeWeek(u, Some(referrer.id)).0
  {
    ReferralCreditsReferrer(s, email, password, code, newId, newCode, now, referrer);
  }

  datatype Stats = Stats(referralCode: Option<string>, totalReferrals: nat, referrals: seq<Referral>)

  /**
   * `getReferralStats`: the target's referral records and their number.
   * The code reported is the signed-in user's, whichever user is asked about.
   */
  function GetReferralStats(s: State, userId: Option<string>): (r: Option<Stats>)
    ensures r.None? <==> Target(s, userId).None?
    ensures r.Some? ==> r.value.totalReferrals == |r.value.referrals| && r.value.referrals == ReferralsOf(s, Target(s, userId).value)
    ensures r.Some? ==> r.value.referralCode == if s.currentUser.Some? then Some(s.currentUser.value.referralCode) else None
  {
    match Target(s, userId)
    case None => None
    case Some(t) =>
      var records := ReferralsOf(s, t);
      Some(Stats(if s.currentUser.Some? then Some(s.currentUser.value.referralCode) else None, |records|, records))
  }

  /** Each rewarded registration adds exactly one to the referrer's total. */
  lemma ReferralCounted(s: State, email: string, password: string, code: string, newId: string, newCode: string, now: Instant, referrer: User)
    requires Register(s, email, password, Some(code), newId, newCode, now).Success?
    requires code != "" && FindByReferralCode(s.users, code) == Some(referrer)
    requires referrer.id != ""
    ensures var t := Register(s, email, password, Some(code), newId, newCode, now).value;
      GetReferralStats(t, Some(referrer.id)).value.totalReferrals == GetReferralStats(s, Some(referrer.id)).value.totalReferrals + 1
  {
  }
}
