/**
 * limIsAuthAlgoSupported: whether an authentication algorithm may be used. On an AP the
 * session's own settings decide; otherwise the configuration does, and a failed
 * configuration read makes the answer "no".
 */
module AuthPolicy {
  import opened LimTypes

  /** tAniAuthType: the values the decision distinguishes. */
  datatype AuthType = OpenSystem | SharedKey | AutoSwitch | OtherAuthType

  /**
   * The configuration items the decision may read: WNI_CFG_OPEN_SYSTEM_AUTH_ENABLE,
   * WNI_CFG_SHARED_KEY_AUTH_ENABLE and WNI_CFG_PRIVACY_ENABLED. None stands for a read
   * that failed.
   */
  datatype AuthConfig = AuthConfig(openSystemEnable: Option<nat>, sharedKeyEnable: Option<nat>,
                                   privacyEnabled: Option<nat>)

  /**
   * The decision for algorithm `authType` in a session with role `role`, authentication
   * type `sessionAuthType` and privacy flag `sessionPrivacy`. Every algorithm other than
   * open system takes the shared-key branch. On an AP a supported algorithm is the
   * session's own (or the session uses auto switch); elsewhere every item the branch
   * reads was read successfully; and shared key always needs privacy on.
   */
  function IsAuthAlgoSupported(authType: AuthType, role: SystemRole, sessionAuthType: AuthType,
                               sessionPrivacy: nat, cfg: AuthConfig): (r: bool)
    ensures r && role == ApRole ==>
      sessionAuthType == AutoSwitch || sessionAuthType == (if authType == OpenSystem then OpenSystem else SharedKey)
    ensures r && role != ApRole && authType == OpenSystem ==> cfg.openSystemEnable.Some?
    ensures r && role != ApRole && authType != OpenSystem ==> cfg.sharedKeyEnable.Some? && cfg.privacyEnabled.Some?
    ensures r && authType != OpenSystem ==>
      if role == ApRole then sessionPrivacy != 0 else cfg.privacyEnabled.Some? && cfg.privacyEnabled.value != 0
  {
    if authType == OpenSystem then
      if role == ApRole then sessionAuthType == OpenSystem || sessionAuthType == AutoSwitch
      else match cfg.openSystemEnable
        case None => false
        case Some(algoEnable) => algoEnable > 0
    else
      var algoEnable: Option<nat> :=
        if role == ApRole then Some(if sessionAuthType == SharedKey || sessionAuthType == AutoSwitch then 1 else 0)
        else cfg.sharedKeyEnable;
      match algoEnable
      case None => false
      case Some(enable) =>
        var privacyOptImp: Option<nat> := if role == ApRole then Some(sessionPrivacy) else cfg.privacyEnabled;
        match privacyOptImp
        case None => false
        case Some(privacy) => enable != 0 && privacy != 0
  }

  /** On an AP, open system is supported exactly when the session uses open system or auto switch. */
  lemma ApOpenSystem(role: SystemRole, sessionAuthType: AuthType, sessionPrivacy: nat, cfg: AuthConfig)
    requires role == ApRole
    ensures IsAuthAlgoSupported(OpenSystem, role, sessionAuthType, sessionPrivacy, cfg)
        <==> sessionAuthType == OpenSystem || sessionAuthType == AutoSwitch
  {
  }

  /**
   * On an AP, shared key (and any algorithm other than open system) is supported exactly
   * when the session uses shared key or auto switch and has privacy on.
   */
  lemma ApSharedKey(authType: AuthType, role: SystemRole, sessionAuthType: AuthType, sessionPrivacy: nat,
                    cfg: AuthConfig)
    requires role == ApRole && authType != OpenSystem
    ensures IsAuthAlgoSupported(authType, role, sessionAuthType, sessionPrivacy, cfg)
        <==> (sessionAuthType == SharedKey || sessionAuthType == AutoSwitch) && sessionPrivacy != 0
  {
  }

  /** On an AP the configuration is never consulted. */
  lemma ApIgnoresConfig(authType: AuthType, sessionAuthType: AuthType, sessionPrivacy: nat,
                        cfg1: AuthConfig, cfg2: AuthConfig)
    ensures IsAuthAlgoSupported(authType, ApRole, sessionAuthType, sessionPrivacy, cfg1)
         == IsAuthAlgoSupported(authType, ApRole, sessionAuthType, sessionPrivacy, cfg2)
  {
  }

  /**
   * In any other role the configuration decides: open system needs its enable item read
   * and nonzero; every other algorithm needs the shared-key enable item and the privacy
   * item both read and both nonzero. The session's settings play no part.
   */
  lemma OtherRoleUsesConfig(authType: AuthType, role: SystemRole, sessionAuthType: AuthType, sessionPrivacy: nat,
                            cfg: AuthConfig)
    requires role != ApRole
    ensures authType == OpenSystem ==>
      (IsAuthAlgoSupported(authType, role, sessionAuthType, sessionPrivacy, cfg) <==>
       cfg.openSystemEnable.Some? && cfg.openSystemEnable.value > 0)
    ensures authType != OpenSystem ==>
      (IsAuthAlgoSupported(authType, role, sessionAuthType, sessionPrivacy, cfg) <==>
       cfg.sharedKeyEnable.Some? && cfg.privacyEnabled.Some? &&
       cfg.sharedKeyEnable.value != 0 && cfg.privacyEnabled.value != 0)
  {
  }

  /** Outside an AP, a failed read of any item the decision needs yields "not supported". */
  lemma FailedReadRejects(authType: AuthType, role: SystemRole, sessionAuthType: AuthType, sessionPrivacy: nat,
                          cfg: AuthConfig)
    requires role != ApRole
    requires if authType == OpenSystem then cfg.openSystemEnable.None?
             else cfg.sharedKeyEnable.None? || cfg.privacyEnabled.None?
    ensures !IsAuthAlgoSupported(authType, role, sessionAuthType, sessionPrivacy, cfg)
  {
  }
}
