/** The script as a whole: the target set the relay filters against is the
    allow-list loaded once at start-up (TARGET_EVSE_IDS in producer.py). These
    lemmas follow a loaded list through to the routing decision. */
module Producer {
  import opened Wrappers
  import opened AllowList
  import opened Routing

  /** A row whose `evse_uid` holds only whitespace puts "" into the target
      set, and from then on every object message that lacks `evseUId` (whose
      identifier defaults to "") is forwarded. */
  lemma BlankRowForwardsIdlessMessages(header: seq<string>, records: seq<seq<string>>, i: nat, v: string,
                                       fields: map<string, Json>)
    requires i < |records|
    requires Uid(StripAll(header), records[i]) == Some(v) && v != "" && AllSpace(v)
    requires ID_KEY !in fields
    ensures Route(Value(Object(fields)), Load(Present(header, records, None))) == Forward("", Dumps(Object(fields)))
  {
    BlankValueAddsEmpty(header, records, i, v);
  }

  /** When the allow-list file is missing, the target set is empty and no
      message of any stream is ever sent. */
  lemma {:induction false} MissingListSendsNothing(ds: seq<Decoded>)
    ensures Sends(ds, Load(Missing)) == []
  {
    if ds != [] {
      MissingListSendsNothing(ds[1..]);
    }
  }
}
