/**
 * Installing and removing keys: the four routines that turn an MLM key request into a
 * request to the hardware abstraction layer (WDA), and the two that confirm a key request
 * to SME. The outcome of each call a routine makes outside this code (buffer allocation,
 * a configuration read, posting to WDA) is a parameter; the messages posted to WDA and to
 * SME are recorded in order.
 */
module KeyInstall {
  import opened LimTypes

  /** SIR_MAC_MAX_NUM_OF_DEFAULT_KEYS: a set-keys request carries up to 4 default keys. */
  const MaxDefaultKeys: nat := 4

  /** tAniEdType: the encryption types the routines distinguish. */
  datatype EdType = EdNone | EdWep40 | EdWep104 | EdTkip | EdCcmp | EdOther

  /** tAniWepType. */
  datatype WepType = WepStatic | WepDynamic

  /** The MLM states the routines enter; every other state is carried as an opaque code. */
  datatype MlmState = WtSetStaKeyState | WtSetStaBcastKeyState | OtherMlmState(code: int)

  /** tSirKeys: one key, of which the routines look only at the unicast flag. */
  datatype SirKey = SirKey(keyId: int, unicast: bool, key: seq<byte>)

  /** tLimMlmSetKeysReq: the fields read here. `keys` is the fixed array of 4 default keys. */
  datatype SetKeysReq = SetKeysReq(peerMacAddr: MacAddr, aid: int, edType: EdType, numKeys: nat,
                                   keys: seq<SirKey>)

  /** tLimMlmRemoveKeyReq: the fields read here. */
  datatype RemoveKeyReq = RemoveKeyReq(peerMacAddr: MacAddr, edType: EdType, keyId: int, wepType: WepType,
                                       unicast: bool)

  /** tSirResultCodes: the failures the routines report. */
  datatype SmeResult = InvalidParameters | ResourcesUnavailable | HalSendMessageFail

  /** The parameter blocks posted to WDA, with the fields the routines fill in. */
  datatype HalMsg =
    | SetBssKeyReq(bssIdx: int, encType: EdType, numKeys: nat, singleTidRc: byte, sessionId: int,
                   bssKeys: seq<SirKey>)
    | SetStaKeyReq(broadcast: bool, staIdx: int, encType: EdType, singleTidRc: byte, sessionId: int,
                   defWepIdx: int, staWepType: Option<WepType>, staKeys: seq<SirKey>)
    | RemoveBssKeyReq(bssIdx: int, encType: EdType, keyId: int, wepType: WepType, sessionId: int)
    | RemoveStaKeyReq(staIdx: int, encType: EdType, keyId: int, unicast: bool, sessionId: int)

  /** The confirmations posted to SME: LIM_MLM_SETKEYS_CNF and LIM_MLM_REMOVEKEY_CNF. */
  datatype SmeMsg =
    | SetKeysCnf(peerMacAddr: MacAddr, aid: int, resultCode: SmeResult)
    | RemoveKeyCnf(peerMacAddr: MacAddr, resultCode: SmeResult)

  /**
   * How a send routine ends: the request went to WDA and the answer is awaited, a
   * confirmation with a failure went to SME, or (limSendSetStaKeyReq without memory) the
   * routine returned with neither.
   */
  datatype SendOutcome = Posted | Confirmed(result: SmeResult) | Abandoned

  /** A WEP request (40 or 104 bit). */
  predicate IsWep(ed: EdType) {
    ed == EdWep40 || ed == EdWep104
  }

  /** Whether the routine handed a request to wdaPostCtrlMsg, accepted or not. */
  predicate PostAttempted(o: SendOutcome) {
    o == Posted || o == Confirmed(HalSendMessageFail)
  }

  /** The (tANI_U8) value of WNI_CFG_SINGLE_TID_RC; a failed read leaves the initial 0. */
  function SingleTidRc(cfg: Option<nat>): byte {
    match cfg
    case None => 0
    case Some(v) => (v % 256) as byte
  }

  /** limSendSetBssKeyReq: too many keys, then allocation, then the post decide the outcome. */
  function SetBssKeyOutcome(numKeys: nat, allocOk: bool, postOk: bool): SendOutcome {
    if numKeys > MaxDefaultKeys then Confirmed(InvalidParameters)
    else if !allocOk then Confirmed(ResourcesUnavailable)
    else if !postOk then Confirmed(HalSendMessageFail)
    else Posted
  }

  /** limSendSetStaKeyReq: an allocation failure returns silently. */
  function SetStaKeyOutcome(allocOk: bool, postOk: bool): SendOutcome {
    if !allocOk then Abandoned
    else if !postOk then Confirmed(HalSendMessageFail)
    else Posted
  }

  /** limSendRemoveBssKeyReq. */
  function RemoveBssKeyOutcome(allocOk: bool, postOk: bool): SendOutcome {
    if !allocOk then Confirmed(ResourcesUnavailable)
    else if !postOk then Confirmed(HalSendMessageFail)
    else Posted
  }

  /** limSendRemoveStaKeyReq: static WEP keys may not be removed through the station interface. */
  function RemoveStaKeyOutcome(req: RemoveKeyReq, allocOk: bool, postOk: bool): SendOutcome {
    if !allocOk then Confirmed(ResourcesUnavailable)
    else if IsWep(req.edType) && req.wepType == WepStatic then Confirmed(InvalidParameters)
    else if !postOk then Confirmed(HalSendMessageFail)
    else Posted
  }

  /**
   * The MLM state limSendSetStaKeyReq leaves in the session: waiting for the broadcast key
   * for an IBSS peer whose first key is not unicast, otherwise waiting for the station key;
   * a WEP request without keys (static WEP) forces the latter afterwards.
   */
  function StaKeyWaitState(role: SystemRole, req: SetKeysReq): MlmState
    requires |req.keys| == MaxDefaultKeys
  {
    if IsWep(req.edType) && req.numKeys == 0 then WtSetStaKeyState
    else if StaKeyBroadcast(role, req) then WtSetStaBcastKeyState
    else WtSetStaKeyState
  }

  /**
   * Whether limSendSetStaKeyReq posts WDA_SET_STA_BCASTKEY_REQ rather than WDA_SET_STAKEY_REQ:
   * for an IBSS peer whose first key is not unicast.
   */
  predicate StaKeyBroadcast(role: SystemRole, req: SetKeysReq)
    requires |req.keys| == MaxDefaultKeys
  {
    role == StaInIbssRole && !req.keys[0].unicast
  }

  /** The keys limSendSetStaKeyReq copies into the request, from key[0] on. */
  function StaKeys(req: SetKeysReq): (r: seq<SirKey>)
    requires |req.keys| == MaxDefaultKeys
    ensures |r| <= MaxDefaultKeys
  {
    if IsWep(req.edType) then
      if req.numKeys == 0 then req.keys else [req.keys[0]]
    else if req.edType == EdTkip || req.edType == EdCcmp then [req.keys[0]]
    else []
  }

  /** The wepType limSendSetStaKeyReq sets; it is left zeroed for other encryption types. */
  function StaWepType(req: SetKeysReq): Option<WepType> {
    if IsWep(req.edType) then Some(if req.numKeys == 0 then WepStatic else WepDynamic) else None
  }

  /** A PE session (tPESession): the fields the routines read or write. */
  class PeSession {
    var limMlmState: MlmState
    var limPrevMlmState: MlmState
    var limSystemRole: SystemRole
    var bssIdx: int
    var peSessionId: int

    constructor (role: SystemRole, bss: int, sessionId: int, state: MlmState)
      ensures limSystemRole == role && bssIdx == bss && peSessionId == sessionId
      ensures limMlmState == state && limPrevMlmState == state
    {
      limSystemRole := role;
      bssIdx := bss;
      peSessionId := sessionId;
      limMlmState := state;
      limPrevMlmState := state;
    }
  }

  /** The LIM globals the routines touch (pMac->lim). */
  class Lim {
    /** gLimMlmState and gLimPrevMlmState. */
    var gLimMlmState: MlmState
    var gLimPrevMlmState: MlmState
    /** The flag SET_LIM_PROCESS_DEFD_MESGS sets: whether deferred messages are processed. */
    var processDefdMsgs: bool
    /** gpLimMlmSetKeysReq and gpLimMlmRemoveKeyReq: the requests being served. */
    var setKeysReq: Option<SetKeysReq>
    var removeKeyReq: Option<RemoveKeyReq>
    /** Requests handed to wdaPostCtrlMsg, and confirmations posted to SME, in order. */
    var halMsgs: seq<HalMsg>
    var smeMsgs: seq<SmeMsg>

    constructor (state: MlmState)
      ensures gLimMlmState == state && gLimPrevMlmState == state && processDefdMsgs
      ensures setKeysReq == None && removeKeyReq == None && halMsgs == [] && smeMsgs == []
    {
      gLimMlmState := state;
      gLimPrevMlmState := state;
      processDefdMsgs := true;
      setKeysReq := None;
      removeKeyReq := None;
      halMsgs := [];
      smeMsgs := [];
    }

    /**
     * limPostSmeSetKeysCnf: confirms a set-keys request to SME with the peer address and
     * AID of the request, and drops the global request.
     */
    method PostSmeSetKeysCnf(req: SetKeysReq, result: SmeResult)
      modifies this
      ensures smeMsgs == old(smeMsgs) + [SetKeysCnf(req.peerMacAddr, req.aid, result)]
      ensures setKeysReq == None
      ensures gLimMlmState == old(gLimMlmState) && gLimPrevMlmState == old(gLimPrevMlmState)
      ensures processDefdMsgs == old(processDefdMsgs) && removeKeyReq == old(removeKeyReq)
      ensures halMsgs == old(halMsgs)
    {
      setKeysReq := None;
      smeMsgs := smeMsgs + [SetKeysCnf(req.peerMacAddr, req.aid, result)];
    }

    /**
     * limPostSmeRemoveKeyCnf: confirms a remove-key request to SME, drops the global
     * request and restores the MLM state saved before the request.
     */
    method PostSmeRemoveKeyCnf(req: RemoveKeyReq, result: SmeResult)
      modifies this
      ensures smeMsgs == old(smeMsgs) + [RemoveKeyCnf(req.peerMacAddr, result)]
      ensures removeKeyReq == None
      ensures gLimMlmState == old(gLimPrevMlmState) && gLimPrevMlmState == old(gLimPrevMlmState)
      ensures processDefdMsgs == old(processDefdMsgs) && setKeysReq == old(setKeysReq)
      ensures halMsgs == old(halMsgs)
    {
      removeKeyReq := None;
      gLimMlmState := gLimPrevMlmState;
      smeMsgs := smeMsgs + [RemoveKeyCnf(req.peerMacAddr, result)];
    }

    /**
     * limSendSetBssKeyReq: with at most 4 keys and a parameter block, posts the group keys
     * of the session's BSS to WDA; every failure is confirmed to SME.
     */
    method SendSetBssKeyReq(req: SetKeysReq, session: PeSession, allocOk: bool, cfgSingleTidRc: Option<nat>,
                            postOk: bool)
      requires |req.keys| == MaxDefaultKeys
      modifies this
      ensures var o := SetBssKeyOutcome(req.numKeys, allocOk, postOk);
        && halMsgs == old(halMsgs) + (if PostAttempted(o) then
             [SetBssKeyReq(session.bssIdx, req.edType, req.numKeys, SingleTidRc(cfgSingleTidRc), session.peSessionId,
                           req.keys[..req.numKeys])] else [])
        && smeMsgs == old(smeMsgs) + (if o.Confirmed? then [SetKeysCnf(req.peerMacAddr, req.aid, o.result)] else [])
        && setKeysReq == (if o.Confirmed? then None else old(setKeysReq))
        && processDefdMsgs == (if PostAttempted(o) then false else old(processDefdMsgs))
      ensures gLimMlmState == old(gLimMlmState) && gLimPrevMlmState == old(gLimPrevMlmState)
      ensures removeKeyReq == old(removeKeyReq)
    {
      if req.numKeys > MaxDefaultKeys {
        PostSmeSetKeysCnf(req, InvalidParameters);
        return;
      }
      if !allocOk {
        PostSmeSetKeysCnf(req, ResourcesUnavailable);
        return;
      }
      var params := SetBssKeyReq(session.bssIdx, req.edType, req.numKeys, SingleTidRc(cfgSingleTidRc),
                                 session.peSessionId, req.keys[..req.numKeys]);
      processDefdMsgs := false;
      halMsgs := halMsgs + [params];
      if !postOk {
        PostSmeSetKeysCnf(req, HalSendMessageFail);
      }
    }

    /**
     * limSendSetStaKeyReq: posts the unicast (or, in an IBSS, broadcast) keys of station
     * `staIdx` to WDA, saving the session's MLM state and entering the matching wait state.
     * Without a parameter block it returns at once, confirming nothing.
     */
    method SendSetStaKeyReq(req: SetKeysReq, staIdx: nat, defWepIdx: int, session: PeSession, allocOk: bool,
                            cfgSingleTidRc: Option<nat>, postOk: bool)
      requires |req.keys| == MaxDefaultKeys && staIdx < 0x1_0000
      modifies this, session
      ensures var o := SetStaKeyOutcome(allocOk, postOk);
        && halMsgs == old(halMsgs) + (if PostAttempted(o) then
             [SetStaKeyReq(StaKeyBroadcast(old(session.limSystemRole), req), staIdx, req.edType,
                           SingleTidRc(cfgSingleTidRc), old(session.peSessionId), defWepIdx, StaWepType(req),
                           StaKeys(req))] else [])
        && smeMsgs == old(smeMsgs) + (if o.Confirmed? then [SetKeysCnf(req.peerMacAddr, req.aid, o.result)] else [])
        && setKeysReq == (if o.Confirmed? then None else old(setKeysReq))
        && processDefdMsgs == (if allocOk then false else old(processDefdMsgs))
        && session.limPrevMlmState == (if allocOk then old(session.limMlmState) else old(session.limPrevMlmState))
        && session.limMlmState == (if allocOk then StaKeyWaitState(old(session.limSystemRole), req)
                                   else old(session.limMlmState))
      ensures session.limSystemRole == old(session.limSystemRole) && session.bssIdx == old(session.bssIdx)
      ensures session.peSessionId == old(session.peSessionId)
      ensures gLimMlmState == old(gLimMlmState) && gLimPrevMlmState == old(gLimPrevMlmState)
      ensures removeKeyReq == old(removeKeyReq)
    {
      if !allocOk {
        return;
      }
      session.limPrevMlmState := session.limMlmState;
      processDefdMsgs := false;
      var broadcast := StaKeyBroadcast(session.limSystemRole, req);
      if broadcast {
        session.limMlmState := WtSetStaBcastKeyState;
      } else {
        session.limMlmState := WtSetStaKeyState;
      }
      var wepType: Option<WepType> := None;
      var keys: seq<SirKey> := [];
      match req.edType {
        case EdWep40 | EdWep104 =>
          if req.numKeys == 0 {
            keys := req.keys;
            wepType := Some(WepStatic);
            session.limMlmState := WtSetStaKeyState;
          } else {
            wepType := Some(WepDynamic);
            keys := [req.keys[0]];
          }
        case EdTkip | EdCcmp =>
          keys := [req.keys[0]];
        case _ =>
      }
      var params := SetStaKeyReq(broadcast, staIdx, req.edType, SingleTidRc(cfgSingleTidRc), session.peSessionId,
                                 defWepIdx, wepType, keys);
      halMsgs := halMsgs + [params];
      if !postOk {
        PostSmeSetKeysCnf(req, HalSendMessageFail);
      }
    }

    /** limSendRemoveBssKeyReq: asks WDA to remove a group key of the session's BSS. */
    method SendRemoveBssKeyReq(req: RemoveKeyReq, session: PeSession, allocOk: bool, postOk: bool)
      modifies this
      ensures var o := RemoveBssKeyOutcome(allocOk, postOk);
        && halMsgs == old(halMsgs) + (if PostAttempted(o) then
             [RemoveBssKeyReq(session.bssIdx, req.edType, req.keyId, req.wepType, session.peSessionId)] else [])
        && smeMsgs == old(smeMsgs) + (if o.Confirmed? then [RemoveKeyCnf(req.peerMacAddr, o.result)] else [])
        && removeKeyReq == (if o.Confirmed? then None else old(removeKeyReq))
        && gLimMlmState == (if o.Confirmed? then old(gLimPrevMlmState) else old(gLimMlmState))
      ensures gLimPrevMlmState == old(gLimPrevMlmState) && processDefdMsgs == old(processDefdMsgs)
      ensures setKeysReq == old(setKeysReq)
    {
      if !allocOk {
        PostSmeRemoveKeyCnf(req, ResourcesUnavailable);
        return;
      }
      var params := RemoveBssKeyReq(session.bssIdx, req.edType, req.keyId, req.wepType, session.peSessionId);
      halMsgs := halMsgs + [params];
      if !postOk {
        PostSmeRemoveKeyCnf(req, HalSendMessageFail);
      }
    }

    /**
     * limSendRemoveStaKeyReq: asks WDA to remove a key of station `staIdx`; a static WEP key
     * is refused, since those go through the BSS interface.
     */
    method SendRemoveStaKeyReq(req: RemoveKeyReq, staIdx: nat, session: PeSession, allocOk: bool, postOk: bool)
      requires staIdx < 0x1_0000
      modifies this
      ensures var o := RemoveStaKeyOutcome(req, allocOk, postOk);
        && halMsgs == old(halMsgs) + (if PostAttempted(o) then
             [RemoveStaKeyReq(staIdx, req.edType, req.keyId, req.unicast, session.peSessionId)] else [])
        && smeMsgs == old(smeMsgs) + (if o.Confirmed? then [RemoveKeyCnf(req.peerMacAddr, o.result)] else [])
        && removeKeyReq == (if o.Confirmed? then None else old(removeKeyReq))
        && gLimMlmState == (if o.Confirmed? then old(gLimPrevMlmState) else old(gLimMlmState))
        && processDefdMsgs == (if PostAttempted(o) then false else old(processDefdMsgs))
      ensures gLimPrevMlmState == old(gLimPrevMlmState) && setKeysReq == old(setKeysReq)
    {
      if !allocOk {
        PostSmeRemoveKeyCnf(req, ResourcesUnavailable);
        return;
      }
      if IsWep(req.edType) && req.wepType == WepStatic {
        PostSmeRemoveKeyCnf(req, InvalidParameters);
        return;
      }
      var params := RemoveStaKeyReq(staIdx, req.edType, req.keyId, req.unicast, session.peSessionId);
      processDefdMsgs := false;
      halMsgs := halMsgs + [params];
      if !postOk {
        PostSmeRemoveKeyCnf(req, HalSendMessageFail);
      }
    }
  }

  /** More than 4 keys are refused with INVALID_PARAMETERS, whatever allocation and posting would do. */
  lemma TooManyBssKeys(numKeys: nat, allocOk: bool, postOk: bool)
    requires numKeys > MaxDefaultKeys
    ensures SetBssKeyOutcome(numKeys, allocOk, postOk) == Confirmed(InvalidParameters)
    ensures !PostAttempted(SetBssKeyOutcome(numKeys, allocOk, postOk))
  {
  }

  /** Removing a static WEP key through the station interface is refused without posting. */
  lemma StaticWepRemovalRefused(req: RemoveKeyReq, postOk: bool)
    requires IsWep(req.edType) && req.wepType == WepStatic
    ensures RemoveStaKeyOutcome(req, true, postOk) == Confirmed(InvalidParameters)
    ensures !PostAttempted(RemoveStaKeyOutcome(req, true, postOk))
  {
  }

  /**
   * A failed allocation is confirmed as RESOURCES_UNAVAILABLE by every send routine but
   * limSendSetStaKeyReq, which confirms nothing; none of them posts.
   */
  lemma AllocationFailure(numKeys: nat, removeReq: RemoveKeyReq, postOk: bool)
    requires numKeys <= MaxDefaultKeys
    ensures SetBssKeyOutcome(numKeys, false, postOk) == Confirmed(ResourcesUnavailable)
    ensures RemoveBssKeyOutcome(false, postOk) == Confirmed(ResourcesUnavailable)
    ensures RemoveStaKeyOutcome(removeReq, false, postOk) == Confirmed(ResourcesUnavailable)
    ensures SetStaKeyOutcome(false, postOk) == Abandoned
  {
  }

  /**
   * How a post to WDA decides the outcome: the request was handed over, a rejection is
   * confirmed exactly once as HAL_SEND_MESSAGE_FAIL, and an acceptance is not confirmed.
   */
  predicate PostDecides(o: SendOutcome, postOk: bool) {
    PostAttempted(o) && (o.Confirmed? <==> !postOk) && (o.Confirmed? ==> o.result == HalSendMessageFail)
  }

  /**
   * Once a request has passed its checks and has a parameter block, every send routine
   * hands it to WDA; a rejection is confirmed exactly once as HAL_SEND_MESSAGE_FAIL and an
   * acceptance is not confirmed at all (the answer from WDA completes it later).
   */
  lemma PostDecidesConfirmation(numKeys: nat, removeReq: RemoveKeyReq, postOk: bool)
    requires numKeys <= MaxDefaultKeys
    requires !(IsWep(removeReq.edType) && removeReq.wepType == WepStatic)
    ensures PostDecides(SetBssKeyOutcome(numKeys, true, postOk), postOk)
    ensures PostDecides(SetStaKeyOutcome(true, postOk), postOk)
    ensures PostDecides(RemoveBssKeyOutcome(true, postOk), postOk)
    ensures PostDecides(RemoveStaKeyOutcome(removeReq, true, postOk), postOk)
  {
  }

  /**
   * limSendSetStaKeyReq waits for the broadcast key only for an IBSS peer whose first key
   * is not unicast and that is not a static WEP request, and only when it posts the
   * broadcast-key request. A static WEP request for such a peer is posted as a
   * broadcast-key request while the session waits for a station key.
   */
  lemma StaKeyWaitStates(role: SystemRole, req: SetKeysReq)
    requires |req.keys| == MaxDefaultKeys
    ensures StaKeyWaitState(role, req) == WtSetStaBcastKeyState
        <==> role == StaInIbssRole && !req.keys[0].unicast && !(IsWep(req.edType) && req.numKeys == 0)
    ensures StaKeyWaitState(role, req) == WtSetStaKeyState || StaKeyWaitState(role, req) == WtSetStaBcastKeyState
    ensures StaKeyWaitState(role, req) == WtSetStaBcastKeyState ==> StaKeyBroadcast(role, req)
    ensures StaKeyBroadcast(role, req) && IsWep(req.edType) && req.numKeys == 0 ==>
      StaKeyWaitState(role, req) == WtSetStaKeyState
  {
  }

  /**
   * A static WEP request (no keys given) hands all 4 default keys to WDA; a dynamic WEP,
   * TKIP or CCMP request hands only key[0]; any other type hands none.
   */
  lemma StaKeysCopied(req: SetKeysReq)
    requires |req.keys| == MaxDefaultKeys
    ensures IsWep(req.edType) && req.numKeys == 0 ==> StaKeys(req) == req.keys && StaWepType(req) == Some(WepStatic)
    ensures IsWep(req.edType) && req.numKeys != 0 ==> StaKeys(req) == [req.keys[0]] && StaWepType(req) == Some(WepDynamic)
    ensures (req.edType == EdTkip || req.edType == EdCcmp) ==> StaKeys(req) == [req.keys[0]] && StaWepType(req) == None
    ensures !IsWep(req.edType) && req.edType != EdTkip && req.edType != EdCcmp ==> StaKeys(req) == []
  {
  }
}
