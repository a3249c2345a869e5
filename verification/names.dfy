/**
 Player names as the setup prompt produces them: the answer is one line of
 comma-separated names, each trimmed; a slot whose field is missing or blank
 falls back to "Player <i+1>".
 */
module Names {
  import opened Text

  /** The name given to slot `i` (0-based) when no name was typed for it. */
  function DefaultName(i: nat): (name: string)
    ensures name != [] && Trimmed(name)
  {
    "Player " + NatToString(i + 1)
  }

  /** Two different slots never receive the same default name. */
  lemma DefaultNamesDistinct(i: nat, j: nat)
    requires i != j
    ensures DefaultName(i) != DefaultName(j)
  {
    if DefaultName(i) == DefaultName(j) {
      var prefix := "Player ";
      assert DefaultName(i)[|prefix|..] == NatToString(i + 1);
      assert DefaultName(j)[|prefix|..] == NatToString(j + 1);
      NatToStringInjective(i + 1, j + 1);
    }
  }

  /**
   What slot `i` ends up named: the i-th trimmed field when it exists and is
   not blank, the default name otherwise.
   */
  function SlotName(fields: seq<string>, i: nat): (name: string)
    requires forall k :: 0 <= k < |fields| ==> Trimmed(fields[k])
    ensures name != [] && Trimmed(name)
  {
    if i < |fields| && fields[i] != [] then fields[i] else DefaultName(i)
  }

  /**
   The prompt's handling of the typed answer: split it on commas, trim each
   field, then fill `numPlayers` slots. Fields beyond `numPlayers` are ignored.
   */
  method FillNames(text: string, numPlayers: nat) returns (names: seq<string>)
    ensures |names| == numPlayers
    ensures forall i :: 0 <= i < numPlayers ==> names[i] != [] && Trimmed(names[i])
    ensures var raw := Split(text, ',');
      forall i :: 0 <= i < numPlayers ==>
        names[i] == if i < |raw| && !AllSpace(raw[i]) then Strip(raw[i]) else DefaultName(i)
  {
    var raw := Split(text, ',');
    var fields := seq(|raw|, k requires 0 <= k < |raw| => Strip(raw[k]));
    names := FillSlots(fields, numPlayers);
    SlotNamesFromRaw(raw, fields, names);
  }

  /**
   The prompt's loop over the slots: slot i takes field i when there is one
   and it is not empty, and "Player <i+1>" otherwise.
   */
  method FillSlots(fields: seq<string>, numPlayers: nat) returns (names: seq<string>)
    requires forall k :: 0 <= k < |fields| ==> Trimmed(fields[k])
    ensures |names| == numPlayers
    ensures forall i :: 0 <= i < numPlayers ==> names[i] != [] && Trimmed(names[i])
    ensures forall i :: 0 <= i < numPlayers ==> names[i] == SlotName(fields, i)
  {
    names := [];
    var i := 0;
    while i < numPlayers
      invariant 0 <= i <= numPlayers
      invariant |names| == i
      invariant forall k :: 0 <= k < i ==> names[k] == SlotName(fields, k)
    {
      if i < |fields| && fields[i] != [] {
        names := names + [fields[i]];
      } else {
        names := names + [DefaultName(i)];
      }
      i := i + 1;
    }
  }

  /**
   A slot keeps what was typed for it, trimmed, exactly when that field exists
   and is not all whitespace; otherwise it gets the default name.
   */
  lemma SlotNameCases(raw: seq<string>, fields: seq<string>, i: nat)
    requires |fields| == |raw| && forall k :: 0 <= k < |raw| ==> fields[k] == Strip(raw[k])
    requires forall k :: 0 <= k < |fields| ==> Trimmed(fields[k])
    ensures SlotName(fields, i) == if i < |raw| && !AllSpace(raw[i]) then Strip(raw[i]) else DefaultName(i)
  {
    if i < |raw| {
      StripEmptyIff(raw[i]);
    }
  }

  /** Lifts `SlotNameCases` to every slot of a filled list. */
  lemma SlotNamesFromRaw(raw: seq<string>, fields: seq<string>, names: seq<string>)
    requires |fields| == |raw| && forall k :: 0 <= k < |raw| ==> fields[k] == Strip(raw[k])
    requires forall k :: 0 <= k < |fields| ==> Trimmed(fields[k])
    requires forall k :: 0 <= k < |names| ==> names[k] == SlotName(fields, k)
    ensures forall k :: 0 <= k < |names| ==>
      names[k] == if k < |raw| && !AllSpace(raw[k]) then Strip(raw[k]) else DefaultName(k)
  {
    forall k | 0 <= k < |names| {
      SlotNameCases(raw, fields, k);
    }
  }
}
