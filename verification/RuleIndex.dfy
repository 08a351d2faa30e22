/** The mapping rules of tools/midi_dev_tester.py: a list edited by the user, and an index by incoming key that is
    rebuilt after every edit and consulted for every message. */
module RuleIndex {

  datatype Key = Key(kind: string, channel: int, index: int)

  datatype MappingRule = MappingRule(
    inKind: string, inChannel: int, inIndex: int,
    outKind: string, outChannel: int, outIndex: int,
    valueMode: string, fixedValue: int, enabled: bool)
  {
    function IncomingKey(): Key {
      Key(inKind, inChannel, inIndex)
    }
  }

  datatype OutMessage = OutMessage(kind: string, channel: int, index: int, value: int)

  function Clamp(x: int): int {
    if x < 0 then 0 else if x > 127 then 127 else x
  }

  /** x is the number from 0 to 127 nearest to y. */
  predicate IsClamped(x: int, y: int) {
    0 <= x <= 127 && (x < y ==> x == 127) && (x > y ==> x == 0)
  }

  predicate IsKind(kind: string) {
    kind == "cc" || kind == "note_on" || kind == "note_off"
  }

  /** The message one rule sends for an incoming value, if any; channels are counted from 0 on the way out. */
  function Fires(r: MappingRule, value: int): seq<OutMessage> {
    if !r.enabled || r.outChannel < 1 || r.outChannel > 16 || !IsKind(r.outKind) then []
    else [OutMessage(r.outKind, r.outChannel - 1, Clamp(r.outIndex),
                     Clamp(if r.valueMode == "passthrough" then value else r.fixedValue))]
  }

  /** Consult every rule in list order. */
  function LinearScan(rules: seq<MappingRule>, key: Key, value: int): seq<OutMessage> {
    if rules == [] then []
    else
      var rest, r := LinearScan(rules[..|rules| - 1], key, value), rules[|rules| - 1];
      if r.IncomingKey() == key then rest + Fires(r, value) else rest
  }

  /** The rules with a given key, in list order. */
  function WithKey(rules: seq<MappingRule>, key: Key): seq<MappingRule> {
    if rules == [] then []
    else
      var rest, r := WithKey(rules[..|rules| - 1], key), rules[|rules| - 1];
      if r.IncomingKey() == key then rest + [r] else rest
  }

  function Lookup(index: map<Key, seq<MappingRule>>, key: Key): seq<MappingRule> {
    if key in index then index[key] else []
  }

  /** The index holds, for every key, exactly the rules with that key; and no empty entries. */
  ghost predicate Agrees(index: map<Key, seq<MappingRule>>, rules: seq<MappingRule>) {
    && (forall key :: Lookup(index, key) == WithKey(rules, key))
    && (forall key | key in index :: index[key] != [])
  }

  lemma AgreesStep(index: map<Key, seq<MappingRule>>, rules: seq<MappingRule>, r: MappingRule)
    requires Agrees(index, rules)
    ensures Agrees(index[r.IncomingKey() := Lookup(index, r.IncomingKey()) + [r]], rules + [r])
  {
    assert (rules + [r])[..|rules|] == rules;
    forall key
      ensures Lookup(index[r.IncomingKey() := Lookup(index, r.IncomingKey()) + [r]], key) == WithKey(rules + [r], key)
    {
      assert Lookup(index, key) == WithKey(rules, key);
    }
  }

  /** Scanning only the rules of the key loses nothing. */
  lemma {:induction false} ScanOfFilter(rules: seq<MappingRule>, key: Key, value: int)
    ensures LinearScan(WithKey(rules, key), key, value) == LinearScan(rules, key, value)
  {
    hide Fires;
    if rules != [] {
      var init, r := rules[..|rules| - 1], rules[|rules| - 1];
      ScanOfFilter(init, key, value);
      if r.IncomingKey() == key {
        var kept := WithKey(init, key) + [r];
        assert kept[..|kept| - 1] == WithKey(init, key);
      }
    }
  }

  lemma {:induction false} WithKeyHasKey(rules: seq<MappingRule>, key: Key)
    ensures forall r | r in WithKey(rules, key) :: r.IncomingKey() == key
  {
    if rules != [] {
      WithKeyHasKey(rules[..|rules| - 1], key);
    }
  }

  /** A message is only sent by an enabled rule of that key, on a channel from 0 to 15, with 7-bit data; and every
      enabled rule of the key with a valid channel and kind sends one. */
  lemma {:induction false} ScanMeaning(rules: seq<MappingRule>, key: Key, value: int)
    ensures forall m | m in LinearScan(rules, key, value) ::
              && IsKind(m.kind) && 0 <= m.channel < 16 && 0 <= m.index < 128 && 0 <= m.value < 128
              && exists r :: r in rules && r.enabled && r.IncomingKey() == key && Fires(r, value) == [m]
    ensures forall r | r in rules && r.enabled && r.IncomingKey() == key
                       && 1 <= r.outChannel <= 16 && IsKind(r.outKind) ::
              exists m :: m in LinearScan(rules, key, value) && Fires(r, value) == [m]
  {
    if rules != [] {
      var init, r := rules[..|rules| - 1], rules[|rules| - 1];
      ScanMeaning(init, key, value);
      assert rules == init + [r];
      if r.IncomingKey() == key && Fires(r, value) != [] {
        var m := Fires(r, value)[0];
        assert Fires(r, value) == [m] && m in LinearScan(rules, key, value);
      }
    }
  }

  /** An enabled rule with this input and a valid output. */
  predicate Qualifies(r: MappingRule, kind: string, channel: int, index: int) {
    && r.inKind == kind && r.inChannel == channel && r.inIndex == index
    && r.enabled && 1 <= r.outChannel <= 16 && r.outKind in {"cc", "note_on", "note_off"}
  }

  /** The rule's output, with the incoming value in passthrough mode and the rule's own value otherwise. */
  predicate Carries(m: OutMessage, r: MappingRule, value: int) {
    && m.kind == r.outKind && m.channel == r.outChannel - 1 && IsClamped(m.index, r.outIndex)
    && IsClamped(m.value, if r.valueMode == "passthrough" then value else r.fixedValue)
  }

  lemma FiresMeaning(r: MappingRule, kind: string, channel: int, index: int, value: int)
    ensures |Fires(r, value)| <= 1 && (Fires(r, value) != [] ==> Carries(Fires(r, value)[0], r, value))
    ensures Qualifies(r, kind, channel, index) <==>
              r.IncomingKey() == Key(kind, channel, index) && Fires(r, value) != []
  {
  }

  /** `from` are the positions, in order, of the rules that qualify, and `sent` holds one message for each. */
  ghost predicate SentFrom(rules: seq<MappingRule>, key: Key, value: int, from: seq<nat>, sent: seq<OutMessage>) {
    && |from| == |sent|
    && (forall a, b | 0 <= a < b < |from| :: from[a] < from[b])
    && (forall i: nat :: i in from <==> i < |rules| && Qualifies(rules[i], key.kind, key.channel, key.index))
    && (forall j | 0 <= j < |sent| :: from[j] < |rules| && Carries(sent[j], rules[from[j]], value))
  }

  lemma OneMoreRule(rules: seq<MappingRule>, r: MappingRule, key: Key, value: int, from: seq<nat>,
                    sent: seq<OutMessage>)
    requires SentFrom(rules, key, value, from, sent) && !Qualifies(r, key.kind, key.channel, key.index)
    ensures SentFrom(rules + [r], key, value, from, sent)
  {
    hide Qualifies, Carries;
  }

  lemma OneMoreSender(rules: seq<MappingRule>, r: MappingRule, key: Key, value: int, from: seq<nat>,
                      sent: seq<OutMessage>, m: OutMessage)
    requires SentFrom(rules, key, value, from, sent) && Qualifies(r, key.kind, key.channel, key.index)
    requires Carries(m, r, value)
    ensures SentFrom(rules + [r], key, value, from + [|rules|], sent + [m])
  {
    hide Qualifies, Carries;
    var n, all := |rules|, from + [|rules|];
    assert forall a | 0 <= a < |from| :: from[a] in from && from[a] < n;
    assert forall i: nat :: i in all <==> i in from || i == n;
  }

  /** What a scan sends: in list order, one message for each rule that qualifies. */
  lemma {:induction false} ScanContent(rules: seq<MappingRule>, key: Key, value: int) returns (from: seq<nat>)
    ensures SentFrom(rules, key, value, from, LinearScan(rules, key, value))
  {
    hide Fires, Qualifies, Carries, SentFrom;
    from := [];
    if rules == [] {
      NothingSent(key, value);
    } else {
      var n := |rules| - 1;
      var init, r := rules[..n], rules[n];
      from := ScanContent(init, key, value);
      FiresMeaning(r, key.kind, key.channel, key.index, value);
      assert rules == init + [r] && Key(key.kind, key.channel, key.index) == key;
      var sent := LinearScan(init, key, value);
      assert sent + [] == sent;
      if Qualifies(r, key.kind, key.channel, key.index) {
        assert Fires(r, value) == [Fires(r, value)[0]];
        OneMoreSender(init, r, key, value, from, sent, Fires(r, value)[0]);
        from := from + [n];
      } else {
        OneMoreRule(init, r, key, value, from, sent);
      }
    }
  }

  lemma NothingSent(key: Key, value: int)
    ensures SentFrom([], key, value, [], LinearScan([], key, value))
  {
  }

  class RuleTable {
    var rules: seq<MappingRule>
    var ruleByKey: map<Key, seq<MappingRule>>

    ghost predicate Valid()
      reads this
    {
      Agrees(ruleByKey, rules)
    }

    constructor ()
      ensures Valid() && rules == []
    {
      rules, ruleByKey := [], map[];
    }

    method RebuildRuleIndex()
      modifies this`ruleByKey
      ensures Valid()
    {
      hide WithKey, Agrees;
      ruleByKey := map[];
      AgreesAtStart();
      for i := 0 to |rules|
        invariant Agrees(ruleByKey, rules[..i])
      {
        var rule := rules[i];
        var key := rule.IncomingKey();
        AgreesStep(ruleByKey, rules[..i], rule);
        assert rules[..i + 1] == rules[..i] + [rule];
        ruleByKey := ruleByKey[key := Lookup(ruleByKey, key) + [rule]];
      }
      assert rules[..|rules|] == rules;
    }

    method AddRule(rule: MappingRule)
      modifies this
      ensures Valid() && rules == old(rules) + [rule]
    {
      rules := rules + [rule];
      RebuildRuleIndex();
    }

    method DeleteSelectedRule(idx: int)
      requires Valid()
      modifies this
      ensures Valid()
      ensures rules == if 0 <= idx < |old(rules)| then old(rules)[..idx] + old(rules)[idx + 1..] else old(rules)
    {
      if idx < 0 || idx >= |rules| {
        return;
      }
      rules := rules[..idx] + rules[idx + 1..];
      RebuildRuleIndex();
    }

    method DuplicateSelectedRule(idx: int)
      requires Valid()
      modifies this
      ensures Valid()
      ensures rules == if 0 <= idx < |old(rules)| then old(rules) + [old(rules)[idx]] else old(rules)
    {
      if idx < 0 || idx >= |rules| {
        return;
      }
      rules := rules + [rules[idx]];
      RebuildRuleIndex();
    }

    /** The messages sent for one incoming event are those of a scan of the whole list: one for each enabled rule with
        this input and a valid output, in list order. `from` are the positions of those rules. */
    method ApplyRules(kind: string, channel: int, index: int, value: int)
      returns (sent: seq<OutMessage>, ghost from: seq<nat>)
      requires Valid()
      ensures sent == LinearScan(rules, Key(kind, channel, index), value)
      ensures |from| == |sent| && forall a, b | 0 <= a < b < |from| :: from[a] < from[b]
      ensures forall i: nat :: i in from <==>
                && i < |rules|
                && rules[i].inKind == kind && rules[i].inChannel == channel && rules[i].inIndex == index
                && rules[i].enabled && 1 <= rules[i].outChannel <= 16
                && rules[i].outKind in {"cc", "note_on", "note_off"}
      ensures forall j | 0 <= j < |sent| :: from[j] < |rules| &&
                var r, m := rules[from[j]], sent[j];
                && m.kind == r.outKind && m.channel == r.outChannel - 1
                && IsClamped(m.index, r.outIndex)
                && IsClamped(m.value, if r.valueMode == "passthrough" then value else r.fixedValue)
    {
      from := ScanContent(rules, Key(kind, channel, index), value);
      var key := Key(kind, channel, index);
      var matches := Lookup(ruleByKey, key);
      ScanOfFilter(rules, key, value);
      WithKeyHasKey(rules, key);
      hide WithKey, LinearScan;
      ScanOfNone(matches, key, value);
      sent := [];
      for i := 0 to |matches|
        invariant sent == LinearScan(matches[..i], key, value)
      {
        var rule := matches[i];
        ScanStep(matches, i, key, value);
        if !rule.enabled {
          continue;
        }
        var outValue := Clamp(if rule.valueMode == "passthrough" then value else rule.fixedValue);
        var channel0 := rule.outChannel - 1;
        if channel0 < 0 || channel0 > 15 {
          continue;
        }
        if IsKind(rule.outKind) {
          sent := sent + [OutMessage(rule.outKind, channel0, Clamp(rule.outIndex), Clamp(outValue))];
        }
      }
      assert matches[..|matches|] == matches;
    }
  }

  lemma ScanOfNone(rules: seq<MappingRule>, key: Key, value: int)
    ensures LinearScan(rules[..0], key, value) == []
  {
  }

  lemma ScanStep(rules: seq<MappingRule>, i: nat, key: Key, value: int)
    requires i < |rules| && rules[i].IncomingKey() == key
    ensures LinearScan(rules[..i + 1], key, value) == LinearScan(rules[..i], key, value) + Fires(rules[i], value)
  {
    assert rules[..i + 1][..i] == rules[..i];
  }

  lemma AgreesAtStart()
    ensures Agrees(map[], [])
  {
  }
}
