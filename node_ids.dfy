/** Node identifiers as the drop handler builds them: the type tag, an
    underscore, and the drop time in milliseconds written in decimal (the
    template literal `${type}_${Date.now()}`). The clock itself is not part
    of the model: the time is a parameter. */
module NodeIds {
  import opened Wrappers

  predicate IsDigit(c: char) {
    '0' <= c <= '9'
  }

  predicate AllDigits(s: seq<char>) {
    forall i :: 0 <= i < |s| ==> IsDigit(s[i])
  }

  function DigitChar(d: nat): (c: char)
    requires d < 10
    ensures IsDigit(c)
  {
    (48 + d) as char
  }

  function DigitValue(c: char): (d: nat)
    requires IsDigit(c)
    ensures d < 10 && DigitChar(d) == c
  {
    (c as int) - 48
  }

  /** How a template literal renders a non-negative integer below 10^21:
      no sign, no leading zero, at least one digit. Larger numbers are
      written in exponent form, which no value of `Date.now()` reaches, so
      this is exact for every drop time. */
  function Decimal(n: nat): (s: seq<char>)
    ensures |s| > 0 && AllDigits(s)
    ensures s[0] == '0' ==> n == 0 && s == "0"
    decreases n
  {
    if n < 10 then [DigitChar(n)] else Decimal(n / 10) + [DigitChar(n % 10)]
  }

  /** Reads a string of decimal digits back as a number. */
  function ParseDecimal(s: seq<char>): nat
    requires AllDigits(s)
  {
    if s == [] then 0 else 10 * ParseDecimal(s[..|s| - 1]) + DigitValue(s[|s| - 1])
  }

  lemma {:induction false} DecimalRoundTrip(n: nat)
    ensures ParseDecimal(Decimal(n)) == n
    decreases n
  {
    var s := Decimal(n);
    if n < 10 {
      assert s[..|s| - 1] == [];
    } else {
      DecimalRoundTrip(n / 10);
      assert s[..|s| - 1] == Decimal(n / 10);
    }
  }

  /** The id given to a node dropped with type tag `kind` at time `now`. */
  function NodeId(kind: string, now: nat): string {
    kind + "_" + Decimal(now)
  }

  /** Position of the last underscore of `s`, if any. */
  function LastUnderscore(s: string): (r: Option<nat>)
    ensures r.Some? ==> r.value < |s| && s[r.value] == '_'
    ensures r.Some? ==> forall i :: r.value < i < |s| ==> s[i] != '_'
    ensures r.None? ==> forall i :: 0 <= i < |s| ==> s[i] != '_'
  {
    if s == [] then None
    else if s[|s| - 1] == '_' then Some(|s| - 1)
    else LastUnderscore(s[..|s| - 1])
  }

  /** Splits a node id at its last underscore into the type tag and the
      time, when what follows that underscore is a decimal number. */
  function SplitNodeId(id: string): Option<(string, nat)> {
    match LastUnderscore(id)
    case None => None
    case Some(k) =>
      var digits := id[k + 1..];
      if |digits| > 0 && AllDigits(digits) then Some((id[..k], ParseDecimal(digits))) else None
  }

  /** A generated id always carries back its type tag and its time: the
      decimal part holds no underscore, so the separator is the last one. */
  lemma NodeIdRoundTrip(kind: string, now: nat)
    ensures SplitNodeId(NodeId(kind, now)) == Some((kind, now))
  {
    var id := NodeId(kind, now);
    var digits := Decimal(now);
    var sep := |kind|;
    assert id[sep] == '_';
    forall i | sep < i < |id|
      ensures id[i] != '_'
    {
      assert id[i] == digits[i - sep - 1];
      assert IsDigit(digits[i - sep - 1]);
    }
    var k := LastUnderscore(id);
    assert k == Some(sep);
    assert id[sep + 1..] == digits;
    assert id[..sep] == kind;
    DecimalRoundTrip(now);
  }

  /** Two drops get the same id exactly when they have the same type tag
      and the same millisecond: nothing else keeps node ids apart. */
  lemma NodeIdCollidesIff(kind1: string, now1: nat, kind2: string, now2: nat)
    ensures NodeId(kind1, now1) == NodeId(kind2, now2) <==> kind1 == kind2 && now1 == now2
  {
    if NodeId(kind1, now1) == NodeId(kind2, now2) {
      NodeIdRoundTrip(kind1, now1);
      NodeIdRoundTrip(kind2, now2);
    }
  }
}
