/** How execute_operator_request in FX/operations/services.py reads the target of a release request. */
module Targets {
  import opened Text
  import opened Values
  import Control = OperatorControl

  /** str.partition: the text before the first separator, whether there is one, and the text after it. */
  function Partition(s: string, separator: char): (r: (string, bool, string))
    ensures separator !in r.0
    ensures if r.1 then s == r.0 + [separator] + r.2 else s == r.0 && r.2 == ""
  {
    if s == "" then ("", false, "")
    else if s[0] == separator then ("", true, s[1..])
    else
      var (prefix, found, rest) := Partition(s[1..], separator);
      ([s[0]] + prefix, found, rest)
  }

  const ACCOUNT := "account"
  const TRADING_HALT := "trading_halt"
  const LEGAL_HOLD := "legal_hold"

  /** `haltKey` and `holdKey` are the database's readings of a key text, None when it is not one. */
  function ReadTarget(haltKey: string -> Option<nat>, holdKey: string -> Option<nat>, target: string): Control.Target {
    var (prefix, found, rest) := Partition(target, ':');
    if !found then Control.Unreadable
    else if prefix == TRADING_HALT && haltKey(rest).Some? then Control.HaltTarget(haltKey(rest).value)
    else if prefix == LEGAL_HOLD && holdKey(rest).Some? then Control.HoldTarget(holdKey(rest).value)
    else if prefix == ACCOUNT && IsDecimal(rest) then Control.AccountTarget(ParseDecimal(rest))
    else Control.Unreadable
  }

  lemma {:induction false} PartitionUnique(prefix: string, rest: string, separator: char)
    requires separator !in prefix
    ensures Partition(prefix + [separator] + rest, separator) == (prefix, true, rest)
  {
    var s := prefix + [separator] + rest;
    if prefix == "" {
      assert s[1..] == rest;
    } else {
      assert s[1..] == prefix[1..] + [separator] + rest;
      PartitionUnique(prefix[1..], rest, separator);
      assert prefix == [prefix[0]] + prefix[1..];
    }
  }

  /** The text that names an account reads back as that account. */
  lemma AccountTargetRoundTrip(haltKey: string -> Option<nat>, holdKey: string -> Option<nat>, account: nat)
    ensures ReadTarget(haltKey, holdKey, ACCOUNT + [':'] + Numeral(account)) == Control.AccountTarget(account)
  {
    PartitionUnique(ACCOUNT, Numeral(account), ':');
    ParseNumeral(account);
    assert |ACCOUNT| == 7 && |TRADING_HALT| == 12 && |LEGAL_HOLD| == 10;
  }

  /** So do the texts that name a halt and a hold, with whatever key the database reads in them. */
  lemma KeyTargetsRoundTrip(haltKey: string -> Option<nat>, holdKey: string -> Option<nat>, key: string)
    ensures ReadTarget(haltKey, holdKey, "trading_halt:" + key) ==
            match haltKey(key) case None => Control.Unreadable case Some(row) => Control.HaltTarget(row)
    ensures ReadTarget(haltKey, holdKey, "legal_hold:" + key) ==
            match holdKey(key) case None => Control.Unreadable case Some(row) => Control.HoldTarget(row)
  {
    assert |ACCOUNT| == 7 && |TRADING_HALT| == 12 && |LEGAL_HOLD| == 10;
    PartitionUnique(TRADING_HALT, key, ':');
    assert "trading_halt:" + key == TRADING_HALT + [':'] + key;
    PartitionUnique(LEGAL_HOLD, key, ':');
    assert "legal_hold:" + key == LEGAL_HOLD + [':'] + key;
  }

  /** No other text names anything. */
  lemma OtherTargetsAreUnreadable(haltKey: string -> Option<nat>, holdKey: string -> Option<nat>, target: string)
    ensures var read := ReadTarget(haltKey, holdKey, target);
            && (read.AccountTarget? ==>
                  exists digits :: target == "account:" + digits && IsDecimal(digits) &&
                                   read.account == ParseDecimal(digits))
            && (read.HaltTarget? ==> exists key :: target == "trading_halt:" + key && haltKey(key) == Some(read.row))
            && (read.HoldTarget? ==> exists key :: target == "legal_hold:" + key && holdKey(key) == Some(read.row))
  {
    var (prefix, found, rest) := Partition(target, ':');
    if found {
      assert target == prefix + [':'] + rest;
      assert ACCOUNT + [':'] + rest == "account:" + rest;
      assert TRADING_HALT + [':'] + rest == "trading_halt:" + rest;
      assert LEGAL_HOLD + [':'] + rest == "legal_hold:" + rest;
    }
  }
}
