/**
 * The per-cell search record `GridNode`, its constructor and its `ToString`
 * text "x,z". `ParseCell` reads that text back and is the partner that the
 * round-trip lemma relates `ToString` to.
 */
module Nodes {
  import opened Components

  /**
   * The per-cell search state. The C# struct also keeps a private copy of the
   * grid it was created for; nothing reads it, so it is not modelled.
   */
  datatype GridNode = GridNode(
    walkable: bool,
    x: int,
    z: int,
    gCost: int,
    hCost: int,
    fCost: int,
    index: int,
    previousNodeIndex: int)

  /** `new GridNode()`: the zero-initialised struct (not walkable, back-pointer 0). */
  const DefaultGridNode := GridNode(false, 0, 0, 0, 0, 0, 0, 0)

  /** The constructor `GridNode(grid, x, z)`. */
  function NewGridNode(x: int, z: int): (node: GridNode)
    ensures node.x == x && node.z == z
    ensures node.walkable
    ensures node.previousNodeIndex == -1
    ensures node.index == 0 && node.gCost == 0 && node.hCost == 0 && node.fCost == 0
  {
    GridNode(true, x, z, 0, 0, 0, 0, -1)
  }

  // ---------------------------------------------------------------------------
  // Decimal text of an int, as `int.ToString()` renders it ("-" and digits)

  predicate IsDigit(c: char) {
    '0' <= c <= '9'
  }

  predicate AllDigits(s: string) {
    forall k :: 0 <= k < |s| ==> IsDigit(s[k])
  }

  function DigitChar(d: int): (c: char)
    requires 0 <= d < 10
    ensures IsDigit(c) && c as int - '0' as int == d
  {
    (d + '0' as int) as char
  }

  /** The digits of a natural number, most significant first, no leading zeros. */
  function NatToDecimal(n: nat): (s: string)
    ensures |s| > 0 && AllDigits(s)
    ensures |s| > 1 ==> s[0] != '0'
    decreases n
  {
    (if n < 10 then "" else NatToDecimal(n / 10)) + [DigitChar(n % 10)]
  }

  function IntToDecimal(v: int): (s: string)
    ensures ',' !in s
  {
    if v < 0 then "-" + NatToDecimal(-v) else NatToDecimal(v)
  }

  /** `GridNode.ToString()`: `x + "," + z`. */
  function ToString(node: GridNode): string {
    IntToDecimal(node.x) + "," + IntToDecimal(node.z)
  }

  // ---------------------------------------------------------------------------
  // Reading the text back

  /** The value of a string of digits. */
  function DecimalValue(s: string): nat
    requires AllDigits(s)
  {
    if s == [] then 0 else DecimalValue(s[..|s| - 1]) * 10 + (s[|s| - 1] as int - '0' as int)
  }

  function ParseInt(s: string): Option<int> {
    if |s| > 1 && s[0] == '-' && AllDigits(s[1..]) then Some(-(DecimalValue(s[1..]) as int))
    else if |s| > 0 && AllDigits(s) then Some(DecimalValue(s))
    else None
  }

  /** The position of the first `c` in `s`, or `|s|` when there is none. */
  function FirstIndexOf(s: string, c: char): (k: nat)
    ensures k <= |s|
    ensures forall j :: 0 <= j < k ==> s[j] != c
    ensures k < |s| ==> s[k] == c
  {
    if s == [] then 0 else if s[0] == c then 0 else 1 + FirstIndexOf(s[1..], c)
  }

  /** Reads "x,z" back into a cell. */
  function ParseCell(s: string): Option<Int2> {
    var k := FirstIndexOf(s, ',');
    if k == |s| then None
    else
      match (ParseInt(s[..k]), ParseInt(s[k + 1..]))
      case (Some(x), Some(z)) => Some(Int2(x, z))
      case _ => None
  }

  lemma {:induction false} DecimalRoundTrip(n: nat)
    ensures DecimalValue(NatToDecimal(n)) == n
    decreases n
  {
    var s := NatToDecimal(n);
    var init := if n < 10 then "" else NatToDecimal(n / 10);
    assert s == init + [DigitChar(n % 10)];
    assert s[..|s| - 1] == init;
    if n >= 10 {
      DecimalRoundTrip(n / 10);
    }
  }

  lemma IntRoundTrip(v: int)
    ensures ParseInt(IntToDecimal(v)) == Some(v)
  {
    if v < 0 {
      var n: nat := -v;
      NegativeRoundTrip(n);
      assert IntToDecimal(v) == "-" + NatToDecimal(n);
    } else {
      var n: nat := v;
      NonNegativeRoundTrip(n);
      assert IntToDecimal(v) == NatToDecimal(n);
    }
  }

  lemma NegativeRoundTrip(n: nat)
    ensures ParseInt("-" + NatToDecimal(n)) == Some(-(n as int))
  {
    var digits := NatToDecimal(n);
    assert ("-" + digits)[1..] == digits;
    DecimalRoundTrip(n);
  }

  lemma NonNegativeRoundTrip(n: nat)
    ensures ParseInt(NatToDecimal(n)) == Some(n)
  {
    var digits := NatToDecimal(n);
    assert IsDigit(digits[0]);
    DecimalRoundTrip(n);
  }

  lemma {:induction false} FirstIndexOfPrefix(a: string, b: string, c: char)
    requires c !in a && |b| > 0 && b[0] == c
    ensures FirstIndexOf(a + b, c) == |a|
  {
    if a != [] {
      assert (a + b)[1..] == a[1..] + b;
      FirstIndexOfPrefix(a[1..], b, c);
    } else {
      assert a + b == b;
    }
  }

  /** The text of a node names its cell: reading it back gives (x, z). */
  lemma ToStringRoundTrip(node: GridNode)
    ensures ParseCell(ToString(node)) == Some(Int2(node.x, node.z))
  {
    var xs, zs := IntToDecimal(node.x), IntToDecimal(node.z);
    var s := ToString(node);
    assert s == xs + ("," + zs);
    FirstIndexOfPrefix(xs, "," + zs, ',');
    assert s[..|xs|] == xs;
    assert s[|xs| + 1..] == zs;
    IntRoundTrip(node.x);
    IntRoundTrip(node.z);
  }

  /** Two nodes render to the same text exactly when they sit on the same cell. */
  lemma ToStringIdentifiesCell(a: GridNode, b: GridNode)
    ensures ToString(a) == ToString(b) <==> (a.x == b.x && a.z == b.z)
  {
    ToStringRoundTrip(a);
    ToStringRoundTrip(b);
  }
}
