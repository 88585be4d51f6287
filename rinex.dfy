/**
  Observation-code and constellation selection of the RINEX readers
  (navy/io/rinex.py): the comma-separated `signals` and `systems` values of
  the configuration's DEFAULT section, turned into the observation codes and
  the set of systems requested from the RINEX loader.
*/
module Rinex {

  /** The separator of the configuration's list values. */
  const Separator: char := ','

  /**
    The observation types requested for every configured signal, in order:
    pseudorange (C), carrier phase (L), Doppler (D) and signal strength (S).
  */
  const ObservationTypes: string := "CLDS"

  // ---------------------------------------------------------------------------
  // str.split with an explicit separator
  // ---------------------------------------------------------------------------

  /**
    Python's `s.split(sep)`: the maximal separator-free pieces between
    separators, empty pieces included; the empty string gives one empty piece.
  */
  function Split(s: string, sep: char): (parts: seq<string>)
    ensures |parts| >= 1
    decreases |s|
  {
    if s == [] then [[]]
    else
      var rest := Split(s[1..], sep);
      if s[0] == sep then [[]] + rest
      else [[s[0]] + rest[0]] + rest[1..]
  }

  /** `sep.join(parts)`. */
  function Join(parts: seq<string>, sep: char): string
    requires |parts| >= 1
    decreases |parts|
  {
    if |parts| == 1 then parts[0] else parts[0] + [sep] + Join(parts[1..], sep)
  }

  /** No piece of a split contains the separator. */
  lemma {:induction false} SplitPiecesFree(s: string, sep: char)
    ensures forall i :: 0 <= i < |Split(s, sep)| ==> sep !in Split(s, sep)[i]
    decreases |s|
  {
    if s != [] {
      SplitPiecesFree(s[1..], sep);
    }
  }

  /** Joining the pieces with the separator gives back the string. */
  lemma {:induction false} JoinSplit(s: string, sep: char)
    ensures Join(Split(s, sep), sep) == s
    decreases |s|
  {
    if s != [] {
      var rest := Split(s[1..], sep);
      JoinSplit(s[1..], sep);
      if s[0] == sep {
        assert Split(s, sep)[1..] == rest;
        assert s == [sep] + s[1..];
      } else {
        var parts := Split(s, sep);
        if |rest| == 1 {
          assert parts == [[s[0]] + rest[0]];
        } else {
          assert parts[1..] == rest[1..];
          assert Join(rest, sep) == rest[0] + [sep] + Join(rest[1..], sep);
        }
        assert s == [s[0]] + s[1..];
      }
    }
  }

  /** Gluing the first element back onto the rest of a non-empty sequence. */
  lemma ConsConcat<T>(p: seq<T>, u: seq<T>)
    requires p != []
    ensures [p[0]] + (p[1..] + u) == p + u
  {
    assert p == [p[0]] + p[1..];
  }

  /** One step of `SplitPrefix`: a non-separator first character joins the first piece. */
  lemma SplitPrefixStep(p: string, t: string, sep: char)
    requires p != [] && p[0] != sep
    requires Split(p[1..] + t, sep) == [p[1..] + Split(t, sep)[0]] + Split(t, sep)[1..]
    ensures Split(p + t, sep) == [p + Split(t, sep)[0]] + Split(t, sep)[1..]
  {
    var pieces := Split(t, sep);
    var rest := Split(p[1..] + t, sep);
    assert (p + t)[0] == p[0] && (p + t)[1..] == p[1..] + t;
    assert Split(p + t, sep) == [[p[0]] + rest[0]] + rest[1..];
    assert rest[0] == p[1..] + pieces[0] && rest[1..] == pieces[1..];
    ConsConcat(p, pieces[0]);
  }

  /** Splitting a piece-free prefix glued to the rest extends the first piece. */
  lemma {:induction false} SplitPrefix(p: string, t: string, sep: char)
    requires sep !in p
    ensures Split(p + t, sep) == [p + Split(t, sep)[0]] + Split(t, sep)[1..]
    decreases |p|
  {
    if p != [] {
      assert p[0] in p;
      SplitPrefix(p[1..], t, sep);
      SplitPrefixStep(p, t, sep);
    } else {
      var pieces := Split(t, sep);
      assert p + t == t;
      assert p + pieces[0] == pieces[0];
      assert pieces == [pieces[0]] + pieces[1..];
    }
  }

  /** Splitting separator-free pieces joined by the separator gives them back. */
  lemma {:induction false} SplitJoin(parts: seq<string>, sep: char)
    requires |parts| >= 1
    requires forall i :: 0 <= i < |parts| ==> sep !in parts[i]
    ensures Split(Join(parts, sep), sep) == parts
    decreases |parts|
  {
    if |parts| == 1 {
      SplitPrefix(parts[0], [], sep);
      assert parts[0] + [] == parts[0];
    } else {
      var tail := Join(parts[1..], sep);
      SplitJoin(parts[1..], sep);
      assert Split([sep] + tail, sep) == [[]] + parts[1..] by {
        assert ([sep] + tail)[1..] == tail;
      }
      SplitPrefix(parts[0], [sep] + tail, sep);
      assert parts[0] + [] == parts[0];
      assert parts[0] + [sep] + tail == parts[0] + ([sep] + tail);
      assert [parts[0]] + parts[1..] == parts;
    }
  }

  // ---------------------------------------------------------------------------
  // RINEXObs._getSignals
  // ---------------------------------------------------------------------------

  /** The four observation codes of one signal, e.g. "1C" gives C1C, L1C, D1C, S1C. */
  function ObservationCodes(signal: string): (codes: seq<string>)
    ensures |codes| == |ObservationTypes|
    ensures forall j :: 0 <= j < |codes| ==> codes[j] == [ObservationTypes[j]] + signal
  {
    ["C" + signal, "L" + signal, "D" + signal, "S" + signal]
  }

  /**
    `RINEXObs._getSignals`, given the configured `signals` value: the four
    observation codes of each comma-separated entry, entry after entry. No
    entry is trimmed or dropped, so duplicates give duplicate codes and an
    empty value gives the codes of the empty signal.
  */
  method GetSignals(signalsConfig: string) returns (signals: seq<string>)
    ensures |signals| == 4 * |Split(signalsConfig, Separator)|
    ensures forall i :: 0 <= i < |signals| ==>
      signals[i] == ObservationCodes(Split(signalsConfig, Separator)[i / 4])[i % 4]
    ensures signalsConfig == [] ==> signals == ["C", "L", "D", "S"]
  {
    var signalsList := Split(signalsConfig, Separator);
    signals := [];
    for k := 0 to |signalsList|
      invariant |signals| == 4 * k
      invariant forall i :: 0 <= i < |signals| ==> signals[i] == ObservationCodes(signalsList[i / 4])[i % 4]
    {
      var sig := signalsList[k];
      signals := signals + ["C" + sig, "L" + sig, "D" + sig, "S" + sig];
    }
    if signalsConfig == [] {
      assert signalsList == [[]];
      assert forall i :: 0 <= i < 4 ==> signals[i] == ObservationCodes([])[i];
      assert "C" + [] == "C" && "L" + [] == "L" && "D" + [] == "D" && "S" + [] == "S";
    }
  }

  /** The codes of entry k fill positions 4k .. 4k+3 of the `GetSignals` result. */
  lemma EntryCodes(signalsList: seq<string>, signals: seq<string>, k: nat)
    requires |signals| == 4 * |signalsList|
    requires forall i :: 0 <= i < |signals| ==> signals[i] == ObservationCodes(signalsList[i / 4])[i % 4]
    requires k < |signalsList|
    ensures signals[4 * k .. 4 * k + 4] == ObservationCodes(signalsList[k])
  {
    forall j | 0 <= j < 4
      ensures signals[4 * k + j] == ObservationCodes(signalsList[k])[j]
    {
      assert (4 * k + j) / 4 == k && (4 * k + j) % 4 == j;
    }
  }

  // ---------------------------------------------------------------------------
  // RINEXObs._getSytems and RINEXNav._getSytems
  // ---------------------------------------------------------------------------

  /** The distinct pieces of a list. */
  function Distinct(parts: seq<string>): (r: set<string>)
    ensures forall x :: x in r <==> x in parts
    ensures |r| <= |parts|
  {
    if parts == [] then {}
    else
      var rest := Distinct(parts[1..]);
      assert forall x :: x in parts <==> x == parts[0] || x in parts[1..];
      {parts[0]} + rest
  }

  /**
    `_getSytems` of both readers, given the configured `systems` value: the set
    of its comma-separated entries. Repeated entries collapse, none is
    trimmed, and there is always at least one entry.
  */
  function Systems(systemsConfig: string): (systems: set<string>)
    ensures forall x :: x in systems <==> x in Split(systemsConfig, Separator)
    ensures 1 <= |systems| <= |Split(systemsConfig, Separator)|
    ensures forall x :: x in systems ==> Separator !in x
  {
    var parts := Split(systemsConfig, Separator);
    SplitPiecesFree(systemsConfig, Separator);
    assert parts[0] in Distinct(parts);
    Distinct(parts)
  }
}
