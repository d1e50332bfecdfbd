/**
 * The RPC subsystem "zmk__battery_history": a decoded request is dispatched to the
 * get-history or clear handler, and every path, including a request that does not decode
 * and a request variant that is not recognised, leaves a response set in the envelope.
 */
module CustomHandler {
  import opened Types
  import opened Persistence
  import opened BatteryHistory

  /** The request variants; UnknownRequest stands for any other oneof tag, including none. */
  datatype Request =
    | GetBatteryHistoryRequest
    | ClearBatteryHistoryRequest
    | UnknownRequest(tag: nat)

  /** One entry of a history response (protobuf has no 8-bit field; the percentage widens). */
  datatype EntryMsg = EntryMsg(timestamp: uint32, batteryPercentage: uint32)

  datatype Response =
    | BatteryHistoryResponse(currentBattery: uint32, totalEntries: int32, entries: seq<EntryMsg>)
    | ClearBatteryHistoryResponse(success: bool)
    | ErrorResponse(message: string)

  const DecodeFailureMessage: string := "Failed to decode request"
  const ProcessFailureMessage: string := "Failed to process request"

  /** The response buffer the RPC transport encodes; None means no response type is set. */
  class ResponseBuffer {
    var response: Option<Response>
  }

  /**
   * A history response that reports the reading soc and the store contents es: the total and the
   * number of entries are |es|, and entry i carries es[i]'s timestamp and percentage.
   */
  predicate DescribesHistory(r: Response, soc: uint8, es: seq<Entry>) {
    && r.BatteryHistoryResponse?
    && r.currentBattery as int == soc as int
    && r.totalEntries as int == |es|
    && |r.entries| == |es|
    && forall i :: 0 <= i < |es| ==>
         r.entries[i].timestamp == es[i].timestamp && r.entries[i].batteryPercentage as int == es[i].percentage as int
  }

  /**
   * handle_get_battery_history_request: asks the store for up to its capacity entries (the same
   * configured maximum) into a local buffer and copies them into the response field by field.
   */
  method HandleGetBatteryHistory(store: HistoryStore, soc: uint8, resp: ResponseBuffer) returns (rc: int)
    requires store.Valid()
    modifies resp
    ensures rc == 0
    ensures resp.response.Some? && DescribesHistory(resp.response.value, soc, store.Contents())
    ensures |resp.response.value.entries| <= store.history.Length
  {
    var current := soc;
    var count := store.GetCount();
    var entries := new Entry[store.history.Length];
    var retrieved := store.GetEntries(entries, store.history.Length);
    if retrieved < 0 {
      return retrieved;
    }
    var msgs: seq<EntryMsg> := [];
    for i := 0 to retrieved
      invariant |msgs| == i
      invariant forall k :: 0 <= k < i ==>
                  msgs[k].timestamp == entries[k].timestamp && msgs[k].batteryPercentage as int == entries[k].percentage as int
    {
      msgs := msgs + [EntryMsg(entries[i].timestamp, entries[i].percentage as uint32)];
    }
    resp.response := Some(BatteryHistoryResponse(current as uint32, count as int32, msgs));
    rc := 0;
  }

  /**
   * handle_clear_battery_history_request: clears the store and reports whether the save that
   * follows succeeded; the sub-handler itself always succeeds.
   */
  method HandleClearBatteryHistory(store: HistoryStore, resp: ResponseBuffer) returns (rc: int)
    requires store.Valid()
    modifies store`count, store.settings`records, resp
    ensures rc == 0 && store.Valid() && store.Contents() == []
    ensures var o := Persist(old(store.settings.records), store.settings.failing, []);
            && store.settings.records == o.records
            && resp.response == Some(ClearBatteryHistoryResponse(o.rc == 0))
  {
    var clearRc := store.Clear();
    resp.response := Some(ClearBatteryHistoryResponse(clearRc == 0));
    rc := 0;
  }

  /**
   * battery_history_rpc_handle_request, with decoding done by the caller: decoded is None when
   * the payload does not decode. The handler always returns true with a response set.
   */
  method HandleRequest(store: HistoryStore, decoded: Option<Request>, soc: uint8, resp: ResponseBuffer)
    returns (handled: bool)
    requires store.Valid()
    modifies store`count, store.settings`records, resp
    ensures handled && resp.response.Some? && store.Valid()
    ensures decoded != Some(ClearBatteryHistoryRequest) ==>
              store.count == old(store.count) && store.settings.records == old(store.settings.records)
    ensures decoded.None? ==> resp.response == Some(ErrorResponse(DecodeFailureMessage))
    ensures decoded.Some? && decoded.value.UnknownRequest? ==>
              resp.response == Some(ErrorResponse(ProcessFailureMessage))
    ensures decoded == Some(GetBatteryHistoryRequest) ==>
              DescribesHistory(resp.response.value, soc, store.Contents())
    ensures decoded == Some(ClearBatteryHistoryRequest) ==>
              var o := Persist(old(store.settings.records), store.settings.failing, []);
              && store.Contents() == [] && store.settings.records == o.records
              && resp.response == Some(ClearBatteryHistoryResponse(o.rc == 0))
  {
    if decoded.None? {
      resp.response := Some(ErrorResponse(DecodeFailureMessage));
      return true;
    }
    var rc := 0;
    match decoded.value {
      case GetBatteryHistoryRequest =>
        rc := HandleGetBatteryHistory(store, soc, resp);
      case ClearBatteryHistoryRequest =>
        rc := HandleClearBatteryHistory(store, resp);
      case UnknownRequest(_) =>
        rc := -1;
    }
    if rc != 0 {
      resp.response := Some(ErrorResponse(ProcessFailureMessage));
    }
    handled := true;
  }
}
