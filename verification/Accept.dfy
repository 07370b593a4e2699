/**
 Which media type the Accept header asks for (server/request.go). Entries come split and parsed;
 weights are thousandths.
 */
module Accept {
  import opened Wrappers

  datatype MediaType = Json | Text | Html

  /** Among types of equal weight, an earlier one here is preferred. */
  const NEGOTIABLE: seq<MediaType> := [Json, Text, Html]

  /** An entry of the header: not a media type, a type the service does not answer with (a
      wildcard among them), or one it does with its q parameter. */
  datatype Entry = Malformed | Other | Named(mediaType: MediaType, q: Option<string>)

  // -------------------------------------------------------------------- weights

  predicate IsDigit(c: char) {
    '0' <= c <= '9'
  }

  function Digit(c: char): (d: nat)
    requires IsDigit(c)
    ensures d <= 9
  {
    c as int - '0' as int
  }

  /** The accepted text of a weight: 0 or 1, then possibly a point and up to three digits, which
      are all zero after a 1. */
  predicate QValue(q: string) {
    && 1 <= |q| <= 5
    && (q[0] == '0' || q[0] == '1')
    && (|q| > 1 ==> q[1] == '.')
    && forall i | 2 <= i < |q| :: if q[0] == '0' then IsDigit(q[i]) else q[i] == '0'
  }

  function DigitAt(q: string, i: nat): nat {
    if i < |q| && IsDigit(q[i]) then Digit(q[i]) else 0
  }

  /** The weight in thousandths. */
  function Thousandths(q: string): nat
    requires QValue(q)
  {
    1000 * DigitAt(q, 0) + 100 * DigitAt(q, 2) + 10 * DigitAt(q, 3) + DigitAt(q, 4)
  }

  /** A qvalue of section 12.4.2 of RFC 9110: "0" with an optional "." and up to three
      digits, or "1" with an optional "." and up to three "0". */
  ghost predicate InGrammar(q: string) {
    || q == "0"
    || q == "1"
    || (exists digits: string :: |digits| <= 3 && (forall c | c in digits :: IsDigit(c)) && q == "0." + digits)
    || (exists zeros: string :: |zeros| <= 3 && (forall c | c in zeros :: c == '0') && q == "1." + zeros)
  }

  /** Exactly the weights of the grammar are accepted, and they lie between 0 and 1. */
  lemma QValueIsGrammar(q: string)
    ensures QValue(q) <==> InGrammar(q)
    ensures QValue(q) ==> Thousandths(q) <= 1000 && (Thousandths(q) == 1000 <==> q[0] == '1')
  {
    if QValue(q) {
      QValueInGrammar(q);
      hide InGrammar;
    } else if InGrammar(q) {
      GrammarIsQValue(q);
    }
  }

  lemma QValueInGrammar(q: string)
    requires QValue(q)
    ensures InGrammar(q)
  {
    if |q| == 1 {
      assert q == [q[0]];
    } else {
      var rest := q[2..];
      assert q == [q[0], '.'] + rest;
      forall c | c in rest ensures if q[0] == '0' then IsDigit(c) else c == '0' {
        var i :| 0 <= i < |rest| && rest[i] == c;
        assert q[i + 2] == c;
      }
      assert if q[0] == '0' then q == "0." + rest else q == "1." + rest;
    }
  }

  lemma GrammarIsQValue(q: string)
    requires InGrammar(q)
    ensures QValue(q)
  {
    if |q| > 1 {
      var rest := q[2..];
      assert q == "0." + rest || q == "1." + rest;
      assert forall i | 2 <= i < |q| :: q[i] in rest;
    }
  }

  /** What decimal digits stand for. */
  function Number(digits: string): nat
    requires forall i | 0 <= i < |digits| :: IsDigit(digits[i])
  {
    if digits == [] then 0 else 10 * Number(digits[..|digits| - 1]) + Digit(digits[|digits| - 1])
  }

  /** A weight of 0 and some decimals is that many tenths, hundredths or thousandths. */
  lemma WeightInThousandths(digits: string)
    requires |digits| <= 3 && forall i | 0 <= i < |digits| :: IsDigit(digits[i])
    ensures var q := "0." + digits;
            QValue(q) && Thousandths(q) == Number(digits) * [1000, 100, 10, 1][|digits|]
    ensures Thousandths("0") == 0 && Thousandths("1") == 1000
  {
    hide Number;
    NumberInPlaces(digits);
    var q := "0." + digits;
    assert forall i | 2 <= i < |q| :: q[i] == digits[i - 2];
  }

  lemma NumberInPlaces(digits: string)
    requires |digits| <= 3 && forall i | 0 <= i < |digits| :: IsDigit(digits[i])
    ensures Number(digits) ==
            match |digits|
            case 0 => 0
            case 1 => Digit(digits[0])
            case 2 => 10 * Digit(digits[0]) + Digit(digits[1])
            case _ => 100 * Digit(digits[0]) + 10 * Digit(digits[1]) + Digit(digits[2])
  {
    if |digits| > 0 {
      NumberInPlaces(digits[..|digits| - 1]);
    }
  }

  /** 1 without a q parameter, and nothing for one that is no weight. */
  function Weight(q: Option<string>): Option<nat> {
    match q
    case None => Some(1000)
    case Some(text) => if QValue(text) then Some(Thousandths(text)) else None
  }

  // ------------------------------------------------------------------- selection

  /** The well-formed weights the header gives a type, in order. */
  function WeightsOf(entries: seq<Entry>, t: MediaType): seq<nat> {
    if entries == [] then [] else
      var e := entries[|entries| - 1];
      WeightsOf(entries[..|entries| - 1], t)
      + if e.Named? && e.mediaType == t && Weight(e.q).Some? then [Weight(e.q).value] else []
  }

  /** The first of them, 0 when there is none. */
  function FirstWeight(entries: seq<Entry>, t: MediaType): nat {
    var w := WeightsOf(entries, t);
    if w == [] then 0 else w[0]
  }

  /** The type with the greatest weight above zero, the earliest in NEGOTIABLE among equals. */
  ghost predicate IsPreferred(entries: seq<Entry>, best: Option<MediaType>) {
    match best
    case None => forall t :: FirstWeight(entries, t) == 0
    case Some(b) =>
      exists i | 0 <= i < 3 ::
        && NEGOTIABLE[i] == b && FirstWeight(entries, b) > 0
        && (forall t :: FirstWeight(entries, t) <= FirstWeight(entries, b))
        && (forall j | 0 <= j < i :: FirstWeight(entries, NEGOTIABLE[j]) < FirstWeight(entries, b))
  }

  lemma NoEntries()
    ensures forall t :: WeightsOf([], t) == []
  {
  }

  lemma OneMoreEntry(entries: seq<Entry>, i: nat)
    requires i < |entries|
    ensures forall t :: WeightsOf(entries[..i + 1], t) == WeightsOf(entries[..i], t)
              + if entries[i].Named? && entries[i].mediaType == t && Weight(entries[i].q).Some?
                then [Weight(entries[i].q).value] else []
  {
    assert entries[..i + 1][..i] == entries[..i];
  }

  method PreferredMediaType(entries: seq<Entry>) returns (best: Option<MediaType>)
    ensures IsPreferred(entries, best)
  {
    hide WeightsOf, Weight;
    var weights: map<MediaType, nat> := map[];
    NoEntries();
    for i := 0 to |entries|
      invariant forall t :: t in weights <==> WeightsOf(entries[..i], t) != []
      invariant forall t | t in weights :: weights[t] == FirstWeight(entries[..i], t)
    {
      OneMoreEntry(entries, i);
      var e := entries[i];
      if !e.Named? || e.mediaType in weights {
        continue;
      }
      var w := Weight(e.q);
      if w.Some? {
        weights := weights[e.mediaType := w.value];
      }
    }
    assert entries[..|entries|] == entries;

    best := None;
    var bestWeight := 0;
    for i := 0 to 3
      invariant best == None ==> bestWeight == 0
      invariant forall j | 0 <= j < i :: FirstWeight(entries, NEGOTIABLE[j]) <= bestWeight
      invariant best.Some? ==> exists j | 0 <= j < i ::
                                 NEGOTIABLE[j] == best.value && FirstWeight(entries, best.value) == bestWeight > 0
                                 && forall k | 0 <= k < j :: FirstWeight(entries, NEGOTIABLE[k]) < bestWeight
    {
      var t := NEGOTIABLE[i];
      var w := if t in weights then weights[t] else 0;
      assert w == FirstWeight(entries, t);
      if w > bestWeight {
        best, bestWeight := Some(t), w;
      }
    }
    AllNegotiable(entries, bestWeight);
  }

  lemma AllNegotiable(entries: seq<Entry>, bound: nat)
    requires forall j | 0 <= j < 3 :: FirstWeight(entries, NEGOTIABLE[j]) <= bound
    ensures forall t :: FirstWeight(entries, t) <= bound
  {
    forall t ensures FirstWeight(entries, t) <= bound {
      assert t == NEGOTIABLE[0] || t == NEGOTIABLE[1] || t == NEGOTIABLE[2];
    }
  }

  /** There is one preferred type at most, so the selection is what the header's weights say and
      nothing else. */
  lemma PreferredIsUnique(entries: seq<Entry>, others: seq<Entry>, a: Option<MediaType>, b: Option<MediaType>)
    requires forall t :: FirstWeight(entries, t) == FirstWeight(others, t)
    requires IsPreferred(entries, a) && IsPreferred(others, b)
    ensures a == b
  {
  }

  /** Who is preferred, type by type: on a tie JSON goes before text and text before HTML. */
  lemma PreferredByCases(entries: seq<Entry>)
    ensures var j, t, h := FirstWeight(entries, Json), FirstWeight(entries, Text), FirstWeight(entries, Html);
            && (IsPreferred(entries, Some(Json)) <==> j > 0 && j >= t && j >= h)
            && (IsPreferred(entries, Some(Text)) <==> t > 0 && t > j && t >= h)
            && (IsPreferred(entries, Some(Html)) <==> h > 0 && h > j && h > t)
            && (IsPreferred(entries, None) <==> j == 0 && t == 0 && h == 0)
  {
    hide FirstWeight;
    assert NEGOTIABLE[0] == Json && NEGOTIABLE[1] == Text && NEGOTIABLE[2] == Html;
    var j, t, h := FirstWeight(entries, Json), FirstWeight(entries, Text), FirstWeight(entries, Html);
    AllNegotiable(entries, Max(j, Max(t, h)));
  }

  /** The entry gives the type a weight. */
  predicate IsWeighted(e: Entry, t: MediaType) {
    e.Named? && e.mediaType == t && (e.q == None || QValue(e.q.value))
  }

  /** The weight of a type is that of the first entry that gives it one, 1 without a q parameter,
      and 0 if none does. */
  lemma FirstEntryDecides(a: seq<Entry>, e: Entry, b: seq<Entry>, t: MediaType)
    requires forall x | x in a :: !IsWeighted(x, t)
    ensures FirstWeight(a, t) == 0
    ensures IsWeighted(e, t) ==>
              FirstWeight(a + [e] + b, t) == if e.q == None then 1000 else Thousandths(e.q.value)
  {
    NoWeights(a, t);
    if IsWeighted(e, t) {
      WeightsConcat(a + [e], b, t);
      WeightsConcat(a, [e], t);
      assert [e][..0] == [];
      assert WeightsOf([e], t) == [if e.q == None then 1000 else Thousandths(e.q.value)];
    }
  }

  lemma {:induction false} NoWeights(a: seq<Entry>, t: MediaType)
    requires forall x | x in a :: !IsWeighted(x, t)
    ensures WeightsOf(a, t) == []
  {
    if a == [] {
    } else {
      assert a[|a| - 1] in a;
      NoWeights(a[..|a| - 1], t);
    }
  }

  lemma {:induction false} WeightsConcat(a: seq<Entry>, b: seq<Entry>, t: MediaType)
    ensures WeightsOf(a + b, t) == WeightsOf(a, t) + WeightsOf(b, t)
  {
    if b == [] {
      assert a + b == a;
    } else {
      WeightsConcat(a, b[..|b| - 1], t);
      assert (a + b)[..|a + b| - 1] == a + b[..|b| - 1];
    }
  }

  /** Malformed, unknown and wildcard entries, and those with a malformed weight, change nothing,
      wherever they stand. */
  lemma IgnoredEntries(a: seq<Entry>, e: Entry, b: seq<Entry>, best: Option<MediaType>)
    requires !e.Named? || Weight(e.q) == None
    ensures IsPreferred(a + [e] + b, best) <==> IsPreferred(a + b, best)
  {
    forall t ensures FirstWeight(a + [e] + b, t) == FirstWeight(a + b, t) {
      WeightsConcat(a + [e], b, t);
      WeightsConcat(a, [e], t);
      WeightsConcat(a, b, t);
      assert WeightsOf([e], t) == [];
    }
  }

  /** The entries that name a type, in order. */
  function Naming(entries: seq<Entry>, t: MediaType): seq<Entry> {
    if entries == [] then [] else
      var e := entries[|entries| - 1];
      Naming(entries[..|entries| - 1], t) + if e.Named? && e.mediaType == t then [e] else []
  }

  lemma WeightOfOne(e: Entry, t: MediaType)
    requires !(e.Named? && e.mediaType == t)
    ensures WeightsOf([e], t) == []
  {
    assert [e][..0] == [];
  }

  lemma {:induction false} WeightsOfNaming(entries: seq<Entry>, t: MediaType)
    ensures WeightsOf(Naming(entries, t), t) == WeightsOf(entries, t)
  {
    hide WeightsOf;
    if entries == [] {
    } else {
      var front, e := entries[..|entries| - 1], entries[|entries| - 1];
      WeightsOfNaming(front, t);
      assert entries == front + [e];
      WeightsConcat(front, [e], t);
      if e.Named? && e.mediaType == t {
        WeightsConcat(Naming(front, t), [e], t);
      } else {
        WeightOfOne(e, t);
        assert Naming(entries, t) == Naming(front, t) + [] == Naming(front, t);
      }
    }
  }

  /** Any rearrangement that keeps each type's own entries in order changes nothing, since only
      the order among entries for one type matters. */
  lemma RearrangedEntries(entries: seq<Entry>, others: seq<Entry>, best: Option<MediaType>)
    requires forall t :: Naming(entries, t) == Naming(others, t)
    ensures IsPreferred(entries, best) <==> IsPreferred(others, best)
  {
    forall t ensures FirstWeight(entries, t) == FirstWeight(others, t) {
      WeightsOfNaming(entries, t);
      WeightsOfNaming(others, t);
    }
  }
}
