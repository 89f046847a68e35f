/** cJSON's parse_number over strtod, and the integer branch of print_number. */
module JsonNumber {
  import opened Bytes
  import opened JsonTree

  /** The characters parse_number copies into its scratch buffer. */
  predicate IsNumberByte(b: byte) {
    IsDigit(b) || b == PLUS || b == MINUS || b == 101 || b == 69 || b == DOT
  }

  /** End of the run of number characters from `i`. */
  function NumberRun(c: bytes, i: nat): (j: nat)
    requires i <= |c|
    ensures i <= j <= |c|
    ensures forall k :: i <= k < j ==> IsNumberByte(c[k])
    ensures j < |c| ==> !IsNumberByte(c[j])
    decreases |c| - i
  {
    if i < |c| && IsNumberByte(c[i]) then NumberRun(c, i + 1) else i
  }

  /** End of the run of digits from `i`. */
  function DigitRun(s: bytes, i: nat): (j: nat)
    requires i <= |s|
    ensures i <= j <= |s|
    ensures forall k :: i <= k < j ==> IsDigit(s[k])
    ensures j < |s| ==> !IsDigit(s[j])
    decreases |s| - i
  {
    if i < |s| && IsDigit(s[i]) then DigitRun(s, i + 1) else i
  }

  function SignEnd(s: bytes, i: nat): (j: nat)
    requires i <= |s|
    ensures i <= j <= |s|
  {
    if i < |s| && (s[i] == PLUS || s[i] == MINUS) then i + 1 else i
  }

  /** End of an exponent starting at `i`; `i` when there is none. */
  function ExponentEnd(s: bytes, i: nat): (j: nat)
    requires i <= |s|
    ensures i <= j <= |s|
  {
    if i < |s| && (s[i] == 101 || s[i] == 69) then
      var d := SignEnd(s, i + 1);
      var e := DigitRun(s, d);
      if e > d then e else i
    else i
  }

  /** What strtod does to a string made of number characters: how many it consumes (0 when there
      is no conversion), and whether those are a plain integer. */
  datatype Strtod = Strtod(consumed: nat, number: Json)

  function StrtodOf(s: bytes): (r: Strtod)
    ensures r.consumed <= |s|
  {
    var d := SignEnd(s, 0);
    var e := DigitRun(s, d);
    var dot := e < |s| && s[e] == DOT;
    var f := if dot then DigitRun(s, e + 1) else e;
    var digits := (e - d) + (if dot then f - (e + 1) else 0);
    if digits == 0 then Strtod(0, Null)
    else
      var x := ExponentEnd(s, f);
      if x == e then
        var m := DecValue(s[d..e]);
        var v := if s[0] == MINUS then -(m as int) else m;
        Strtod(e, if IsCInt(v) then Number(v) else Real(s[..e]))
      else
        Strtod(x, Real(s[..x]))
  }

  lemma DigitRunIs(s: bytes, i: nat, j: nat)
    requires i <= j <= |s|
    requires forall k :: i <= k < j ==> IsDigit(s[k])
    requires j < |s| ==> !IsDigit(s[j])
    ensures DigitRun(s, i) == j
    decreases j - i
  {
    if i < j { DigitRunIs(s, i + 1, j); }
  }

  lemma NumberRunIs(c: bytes, i: nat, j: nat)
    requires i <= j <= |c|
    requires forall k :: i <= k < j ==> IsNumberByte(c[k])
    requires j < |c| ==> !IsNumberByte(c[j])
    ensures NumberRun(c, i) == j
    decreases j - i
  {
    if i < j { NumberRunIs(c, i + 1, j); }
  }
}
