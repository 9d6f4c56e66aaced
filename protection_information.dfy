/**
 * The protection-status reaction shared by the Credential and Pin view models: the information
 * published for a status, whether a cool-down timer starts, and what each timer tick publishes.
 */
module ProtectionInformation {
  import opened Wrappers
  import opened Vendor
  import opened Localization

  /**
   * `CredentialProtectionInformation` / `PinProtectionInformation`. Their initialisers have
   * default arguments declared outside this model, so an argument left out is `None` here.
   */
  datatype ProtectionInfo = ProtectionInfo(message: Option<Text>, isInCoolDown: Option<bool>)

  /** The information built with every argument left at its default. */
  const DefaultInfo := ProtectionInfo(None, None)

  /** An `InteractionCountDownTimer` started for `lifeTime` seconds, remembering the remaining tries. */
  datatype CoolDownTimer = CoolDownTimer(lifeTime: int, remainingTries: int)

  /** What `handleProtectionStatus()` does: the information it publishes, and the timer it starts, if any. */
  datatype StatusReaction = StatusReaction(info: ProtectionInfo, timer: Option<CoolDownTimer>)

  /**
   * The reaction to the status of a `credential` authenticator: unlocked, absent and unknown
   * statuses publish the default; a failed last attempt publishes its description and whether a
   * cool-down runs, and starts a timer exactly when it does; a lock-out publishes its description.
   */
  function React(credential: AuthenticatorAaid, status: Option<ProtectionStatus>): (r: StatusReaction)
    ensures status.None? || status.value.Unlocked? || status.value.UnknownStatus? ==> r == StatusReaction(DefaultInfo, None)
    ensures status.Some? && status.value.LockedOut? ==>
      r == StatusReaction(ProtectionInfo(Some(StatusDescription(credential, status.value)), None), None)
    ensures status.Some? && status.value.LastAttemptFailed? ==>
      r.info == ProtectionInfo(Some(StatusDescription(credential, status.value)), Some(status.value.coolDownTimeInSeconds > 0))
    ensures r.timer.Some? <==> status.Some? && status.value.LastAttemptFailed? && status.value.coolDownTimeInSeconds > 0
    ensures r.timer.Some? ==> r.timer.value == CoolDownTimer(status.value.coolDownTimeInSeconds, status.value.remainingTries)
  {
    match status
    case None => StatusReaction(DefaultInfo, None)
    case Some(Unlocked) => StatusReaction(DefaultInfo, None)
    case Some(LastAttemptFailed(remainingTries, coolDown)) =>
      var info := ProtectionInfo(Some(StatusDescription(credential, status.value)), Some(coolDown > 0));
      StatusReaction(info, if coolDown > 0 then Some(CoolDownTimer(coolDown, remainingTries)) else None)
    case Some(LockedOut) => StatusReaction(ProtectionInfo(Some(StatusDescription(credential, status.value)), None), None)
    case Some(UnknownStatus) => StatusReaction(DefaultInfo, None)
  }

  /** The information one timer tick publishes, for `remainingCoolDown` seconds left. */
  function TickInfo(credential: AuthenticatorAaid, timer: CoolDownTimer, remainingCoolDown: int): ProtectionInfo
  {
    ProtectionInfo(Some(StatusDescription(credential, LastAttemptFailed(timer.remainingTries, remainingCoolDown))),
                   Some(remainingCoolDown > 0))
  }

  /** The published cool-down flag is set exactly when a timer starts. */
  lemma CoolDownFlagMatchesTimer(credential: AuthenticatorAaid, status: ProtectionStatus)
    requires status.LastAttemptFailed?
    ensures React(credential, Some(status)).info.isInCoolDown == Some(React(credential, Some(status)).timer.Some?)
  {
  }

  /**
   * A tick at the full cool-down republishes what the status itself published; a tick reports a
   * cool-down exactly while time remains, and the final tick ends it.
   */
  lemma TicksContinueTheStatus(credential: AuthenticatorAaid, status: ProtectionStatus, remainingCoolDown: int)
    requires React(credential, Some(status)).timer.Some?
    ensures var timer := React(credential, Some(status)).timer.value;
      TickInfo(credential, timer, timer.lifeTime) == React(credential, Some(status)).info
      && (TickInfo(credential, timer, remainingCoolDown).isInCoolDown == Some(true) <==> remainingCoolDown > 0)
      && TickInfo(credential, timer, 0).isInCoolDown == Some(false)
  {
  }
}
