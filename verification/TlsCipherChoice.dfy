/**
 How the TLS server picks a cipher: it walks the list that has priority, skips what cannot be used, and inside
 an equal-preference group lets the other side's order decide.
 */
module TlsCipherChoice {
  import opened Wrappers

  datatype Cipher = Cipher(id: nat, minVersion: nat, maxVersion: nat, keyExchange: bv32, auth: bv32)

  /** What the server can do on this connection. */
  datatype Abilities = Abilities(version: nat, keyExchanges: bv32, auths: bv32)

  predicate Usable(c: Cipher, a: Abilities) {
    && c.minVersion <= a.version <= c.maxVersion
    && c.keyExchange & a.keyExchanges != 0
    && c.auth & a.auths != 0
  }

  /** The first position of `c` in the list. */
  function IndexIn(list: seq<Cipher>, c: Cipher): (k: nat)
    requires c in list
    ensures k < |list| && list[k] == c && forall j | 0 <= j < k :: list[j] != c
  {
    if list[0] == c then 0 else 1 + IndexIn(list[1..], c)
  }

  /** `sk_SSL_CIPHER_find`: the first position, if there is one. */
  method FindIn(list: seq<Cipher>, c: Cipher) returns (found: bool, index: nat)
    ensures found == (c in list)
    ensures found ==> index == IndexIn(list, c)
  {
    index := 0;
    while index < |list|
      invariant index <= |list| && forall k | 0 <= k < index :: list[k] != c
    {
      if list[index] == c {
        assert IndexIn(list, c) == index;
        return true, index;
      }
      index := index + 1;
    }
    return false, 0;
  }

  // ----- What the choice should be -----

  predicate Acceptable(prio: seq<Cipher>, allow: seq<Cipher>, a: Abilities, i: nat)
    requires i < |prio|
  {
    Usable(prio[i], a) && prio[i] in allow
  }

  /** The number of the equal-preference group of position `i`; a flag that is clear ends a group. */
  function GroupOf(flags: seq<bool>, i: nat): nat
    requires i <= |flags|
  {
    if i == 0 then 0 else GroupOf(flags, i - 1) + if flags[i - 1] then 0 else 1
  }

  /** The group of position `i` has an end. */
  predicate Closed(flags: seq<bool>, i: nat) {
    exists k :: i <= k < |flags| && !flags[k]
  }

  /**
   Position `i` is the best: no acceptable cipher is in an earlier group, and none in its own group comes earlier
   in the other side's list.
   */
  predicate Best(prio: seq<Cipher>, flags: seq<bool>, allow: seq<Cipher>, a: Abilities, i: nat)
    requires |flags| == |prio| && i < |prio| && Acceptable(prio, allow, a, i)
  {
    forall j: nat | j < |prio| && Acceptable(prio, allow, a, j) ::
      || GroupOf(flags, i) < GroupOf(flags, j)
      || (GroupOf(flags, i) == GroupOf(flags, j) && IndexIn(allow, prio[i]) <= IndexIn(allow, prio[j]))
  }

  /** The answer for a priority list with groups: the best cipher, or none if no group that ends has any. */
  ghost predicate IsChoice(prio: seq<Cipher>, flags: seq<bool>, allow: seq<Cipher>, a: Abilities, r: Option<Cipher>)
    requires |flags| == |prio|
  {
    match r
    case None => forall j: nat | j < |prio| && Acceptable(prio, allow, a, j) :: !Closed(flags, j)
    case Some(c) =>
      exists i: nat :: i < |prio| && prio[i] == c && Acceptable(prio, allow, a, i) && Best(prio, flags, allow, a, i)
  }

  lemma {:induction false} GroupsGrow(flags: seq<bool>, i: nat, j: nat)
    requires i <= j <= |flags|
    ensures GroupOf(flags, i) <= GroupOf(flags, j)
    ensures (forall k | i <= k < j :: flags[k]) <==> GroupOf(flags, i) == GroupOf(flags, j)
    decreases j
  {
    if i < j {
      GroupsGrow(flags, i, j - 1);
    }
  }

  /** A well-formed list ends its last group, so every group ends. */
  lemma LastFlagCloses(flags: seq<bool>, i: nat)
    requires i < |flags| && !flags[|flags| - 1]
    ensures Closed(flags, i)
  {
  }

  /** Without groups the best is simply the first. */
  lemma UngroupedBestIsFirst(prio: seq<Cipher>, flags: seq<bool>, allow: seq<Cipher>, a: Abilities, i: nat)
    requires |flags| == |prio| && (forall k | 0 <= k < |flags| :: !flags[k])
    requires i < |prio| && Acceptable(prio, allow, a, i)
    ensures Best(prio, flags, allow, a, i) <==> forall j: nat | j < i :: !Acceptable(prio, allow, a, j)
  {
    forall j: nat | j < |prio|
      ensures j < i ==> GroupOf(flags, j) < GroupOf(flags, i)
      ensures i < j ==> GroupOf(flags, i) < GroupOf(flags, j)
    {
      GroupsGrow(flags, if j < i then j else i, if j < i then i else j);
    }
  }

  // ----- The loop -----

  /**
   The positions before `i` hold nothing acceptable, except in the group that `i` continues, where the least
   position in the other list is `groupMin`.
   */
  ghost predicate Scanned(prio: seq<Cipher>, flags: seq<bool>, allow: seq<Cipher>, a: Abilities, i: nat,
      groupMin: Option<nat>)
    requires |flags| == |prio| && i <= |prio|
  {
    match groupMin
    case None => forall j: nat | j < i :: !Acceptable(prio, allow, a, j)
    case Some(m) =>
      && (exists k: nat :: k < i && AtMin(prio, flags, allow, a, i, k, m))
      && forall j: nat | j < i && Acceptable(prio, allow, a, j) ::
        GroupOf(flags, j) == GroupOf(flags, i) && m <= IndexIn(allow, prio[j])
  }

  ghost predicate AtMin(prio: seq<Cipher>, flags: seq<bool>, allow: seq<Cipher>, a: Abilities, i: nat, k: nat, m: nat)
    requires |flags| == |prio| && i <= |prio| && k < i
  {
    Acceptable(prio, allow, a, k) && GroupOf(flags, k) == GroupOf(flags, i) && m == IndexIn(allow, prio[k])
  }

  /** Walks a priority list; `flags` are the group flags, all clear for a list without groups. */
  method Choose(prio: seq<Cipher>, flags: seq<bool>, allow: seq<Cipher>, a: Abilities) returns (r: Option<Cipher>)
    requires |flags| == |prio|
    ensures IsChoice(prio, flags, allow, a, r)
  {
    var groupMin: Option<nat> := None;
    for i := 0 to |prio|
      invariant Scanned(prio, flags, allow, a, i, groupMin)
    {
      var c := prio[i];
      var found, index := FindIn(allow, c);
      if Usable(c, a) && found {
        if flags[i] {
          if groupMin.None? || groupMin.value > index {
            groupMin := Some(index);
            assert AtMin(prio, flags, allow, a, i + 1, i, index);
          } else {
            KeepMin(prio, flags, allow, a, i, groupMin.value);
          }
        } else {
          if groupMin.Some? && groupMin.value < index {
            Answer(prio, flags, allow, a, i, groupMin.value);
            return Some(allow[groupMin.value]);
          }
          AnswerHere(prio, flags, allow, a, i, groupMin);
          return Some(allow[index]);
        }
      } else if !flags[i] {
        if groupMin.Some? {
          Answer(prio, flags, allow, a, i, groupMin.value);
          return Some(allow[groupMin.value]);
        }
      } else if groupMin.Some? {
        KeepMin(prio, flags, allow, a, i, groupMin.value);
      }
    }
    NothingClosed(prio, flags, allow, a, groupMin);
    return None;
  }

  lemma KeepMin(prio: seq<Cipher>, flags: seq<bool>, allow: seq<Cipher>, a: Abilities, i: nat, m: nat)
    requires |flags| == |prio| && i < |prio| && flags[i] && Scanned(prio, flags, allow, a, i, Some(m))
    requires Acceptable(prio, allow, a, i) ==> m <= IndexIn(allow, prio[i])
    ensures Scanned(prio, flags, allow, a, i + 1, Some(m))
  {
    var k: nat :| k < i && AtMin(prio, flags, allow, a, i, k, m);
    assert AtMin(prio, flags, allow, a, i + 1, k, m);
  }

  /** At the end of a group with a match before `i`, the least one is the best. */
  lemma Answer(prio: seq<Cipher>, flags: seq<bool>, allow: seq<Cipher>, a: Abilities, i: nat, m: nat)
    requires |flags| == |prio| && i < |prio| && !flags[i] && Scanned(prio, flags, allow, a, i, Some(m))
    requires Acceptable(prio, allow, a, i) ==> m <= IndexIn(allow, prio[i])
    ensures m < |allow| && IsChoice(prio, flags, allow, a, Some(allow[m]))
  {
    var k: nat :| k < i && AtMin(prio, flags, allow, a, i, k, m);
    forall j: nat | j < |prio| && Acceptable(prio, allow, a, j)
      ensures GroupOf(flags, k) < GroupOf(flags, j)
        || (GroupOf(flags, k) == GroupOf(flags, j) && IndexIn(allow, prio[k]) <= IndexIn(allow, prio[j]))
    {
      if j > i {
        GroupsGrow(flags, i, j);
      }
    }
    assert Best(prio, flags, allow, a, k);
  }

  /** A match that ends its group and beats those before it is the best. */
  lemma AnswerHere(prio: seq<Cipher>, flags: seq<bool>, allow: seq<Cipher>, a: Abilities, i: nat, groupMin: Option<nat>)
    requires |flags| == |prio| && i < |prio| && !flags[i] && Acceptable(prio, allow, a, i)
    requires Scanned(prio, flags, allow, a, i, groupMin)
    requires groupMin.Some? ==> IndexIn(allow, prio[i]) <= groupMin.value
    ensures IsChoice(prio, flags, allow, a, Some(prio[i]))
  {
    forall j: nat | j < |prio| && Acceptable(prio, allow, a, j)
      ensures GroupOf(flags, i) < GroupOf(flags, j)
        || (GroupOf(flags, i) == GroupOf(flags, j) && IndexIn(allow, prio[i]) <= IndexIn(allow, prio[j]))
    {
      if j > i {
        GroupsGrow(flags, i, j);
      }
    }
    assert Best(prio, flags, allow, a, i);
  }

  /** What is left at the end of the list is in a group that has no end. */
  lemma NothingClosed(prio: seq<Cipher>, flags: seq<bool>, allow: seq<Cipher>, a: Abilities, groupMin: Option<nat>)
    requires |flags| == |prio| && Scanned(prio, flags, allow, a, |prio|, groupMin)
    ensures IsChoice(prio, flags, allow, a, None)
  {
    forall j: nat | j < |prio| && Acceptable(prio, allow, a, j)
      ensures !Closed(flags, j)
    {
      GroupsGrow(flags, j, |flags|);
    }
  }

  /** The server's choice, by its own preference or by the client's. */
  method ChooseCipher(client: seq<Cipher>, server: seq<Cipher>, serverFlags: seq<bool>, serverPreference: bool,
      a: Abilities) returns (r: Option<Cipher>)
    requires |serverFlags| == |server|
    ensures serverPreference ==> IsChoice(server, serverFlags, client, a, r)
    ensures !serverPreference ==> IsChoice(client, seq(|client|, _ => false), server, a, r)
    ensures (server != [] ==> !serverFlags[|serverFlags| - 1]) ==>
      (r.None? <==> forall c | c in client && c in server :: !Usable(c, a))
  {
    if serverPreference {
      r := Choose(server, serverFlags, client, a);
      ChosenIsCommon(server, serverFlags, client, a, r);
    } else {
      r := Choose(client, seq(|client|, _ => false), server, a);
      ChosenIsCommon(client, seq(|client|, _ => false), server, a, r);
    }
  }

  lemma ChosenIsCommon(prio: seq<Cipher>, flags: seq<bool>, allow: seq<Cipher>, a: Abilities, r: Option<Cipher>)
    requires |flags| == |prio| && IsChoice(prio, flags, allow, a, r)
    ensures (prio != [] ==> !flags[|flags| - 1]) ==>
      (r.None? <==> forall c | c in prio && c in allow :: !Usable(c, a))
  {
    if r.None? && (prio != [] ==> !flags[|flags| - 1]) {
      forall c | c in prio && c in allow
        ensures !Usable(c, a)
      {
        var j: nat :| j < |prio| && prio[j] == c;
        LastFlagCloses(flags, j);
      }
    }
    if r.Some? {
      assert r.value in prio;
    }
  }
}
