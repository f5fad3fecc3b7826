/** The obspack_id column (gcpy/obspack_fill.py, lines 116-131): a character
    matrix with one 200-character row per sample, row i holding the prefix,
    then str(i), then '_' up to the width. */
module ObsIds {
  import opened Text

  const IdWidth: nat := 200

  /** sitename + '_from_' + the date field of datestart + '_to_' + the date field of dateend + '_n'. */
  function IdPrefix(site: string, dateStart: string, dateEnd: string): (p: string)
    ensures site <= p
    ensures |p| >= 2 && p[|p| - 2..] == "_n"
  {
    site + "_from_" + FirstField(dateStart) + "_to_" + FirstField(dateEnd) + "_n"
  }

  /** For window ends written 'date time', the prefix carries the two dates. */
  lemma IdPrefixOf(site: string, d1: string, t1: string, d2: string, t2: string)
    requires ' ' !in d1 && ' ' !in d2
    ensures IdPrefix(site, d1 + " " + t1, d2 + " " + t2) == site + "_from_" + d1 + "_to_" + d2 + "_n"
  {
    FirstFieldOf(d1, t1);
    FirstFieldOf(d2, t2);
  }

  /** Row i of the identifier matrix: prefix + str(i) left-justified with '_' to the width. */
  function IdRow(prefix: string, i: nat): (r: string)
  {
    PadRight(prefix + Decimal(i), IdWidth, '_')
  }

  /** prefix + str(i) fits in a row; a longer text cannot be stored in the matrix. */
  predicate IdFits(prefix: string, i: nat) { |prefix + Decimal(i)| <= IdWidth }

  predicate AllIdsFit(prefix: string, n: nat) { forall i :: 0 <= i < n ==> IdFits(prefix, i) }

  /** The rows 0 .. n-1 all fit exactly when the last one does, since numerals only grow. */
  lemma AllIdsFitLast(prefix: string, n: nat)
    ensures AllIdsFit(prefix, n) <==> n == 0 || IdFits(prefix, n - 1)
  {
    if n > 0 && IdFits(prefix, n - 1) {
      forall i | 0 <= i < n
        ensures IdFits(prefix, i)
      {
        DecimalLengthMonotone(i, n - 1);
      }
    }
  }

  /** A row that fits is exactly IdWidth characters: the prefix, the numeral of i, then only '_'. */
  lemma IdRowShape(prefix: string, i: nat)
    requires IdFits(prefix, i)
    ensures var row, d := IdRow(prefix, i), Decimal(i);
      && |row| == IdWidth
      && row[..|prefix|] == prefix
      && row[|prefix|..|prefix| + |d|] == d
      && forall j :: |prefix| + |d| <= j < IdWidth ==> row[j] == '_'
  {
    var row, d := IdRow(prefix, i), Decimal(i);
    assert row[..|prefix + d|] == prefix + d;
    assert row[..|prefix|] == (prefix + d)[..|prefix|];
    assert row[|prefix|..|prefix| + |d|] == (prefix + d)[|prefix|..];
  }

  /** In a row that fits, the digits after the prefix are exactly the numeral of i. */
  lemma NumeralRun(prefix: string, i: nat)
    requires IdFits(prefix, i)
    ensures DigitRun(IdRow(prefix, i)[|prefix|..]) == |Decimal(i)|
  {
    var d := Decimal(i);
    var pad := Repeat('_', IdWidth - |prefix + d|);
    assert IdRow(prefix, i) == prefix + d + pad;
    assert IdRow(prefix, i)[|prefix|..] == d + pad;
    DigitRunOf(d, pad);
  }

  /** Different record numbers give different rows. */
  lemma IdRowInjective(prefix: string, i: nat, j: nat)
    requires IdFits(prefix, i) && IdFits(prefix, j) && IdRow(prefix, i) == IdRow(prefix, j)
    ensures i == j
  {
    var row := IdRow(prefix, i);
    var di, dj := Decimal(i), Decimal(j);
    NumeralRun(prefix, i);
    NumeralRun(prefix, j);
    IdRowShape(prefix, i);
    IdRowShape(prefix, j);
    assert di == row[|prefix|..|prefix| + |di|] == dj;
    DecimalInjective(i, j);
  }

  /** The rows of a character matrix, each read as a string. */
  function Rows(ids: array2<char>): (rows: seq<string>)
    reads ids
    ensures |rows| == ids.Length0
    ensures forall i :: 0 <= i < |rows| ==> |rows[i]| == ids.Length1
    ensures forall i, j :: 0 <= i < |rows| && 0 <= j < ids.Length1 ==> rows[i][j] == ids[i, j]
  {
    seq(ids.Length0, i requires 0 <= i < ids.Length0 reads ids => seq(ids.Length1, j reads ids requires 0 <= i < ids.Length0 && 0 <= j < ids.Length1 => ids[i, j]))
  }

  /** Fills an n by IdWidth matrix row by row with IdRow(prefix, i); ok is false when some row
      does not fit, which is where the source fails on the row assignment. */
  method FillIds(prefix: string, n: nat) returns (ids: array2<char>, ok: bool)
    ensures ok == AllIdsFit(prefix, n)
    ensures ids.Length0 == n && ids.Length1 == IdWidth
    ensures ok ==> Rows(ids) == seq(n, i requires 0 <= i < n => IdRow(prefix, i))
  {
    ids := new char[n, IdWidth];
    var count := 0;
    while count < n
      invariant 0 <= count <= n
      invariant AllIdsFit(prefix, count)
      invariant forall i, j :: 0 <= i < count && 0 <= j < IdWidth ==> ids[i, j] == IdRow(prefix, i)[j]
    {
      var row := PadRight(prefix + Decimal(count), IdWidth, '_');
      if |row| != IdWidth {
        AllIdsFitLast(prefix, count + 1);
        return ids, false;
      }
      forall j | 0 <= j < IdWidth {
        ids[count, j] := row[j];
      }
      count := count + 1;
    }
    ok := true;
    assert Rows(ids) == seq(n, i requires 0 <= i < n => IdRow(prefix, i)) by {
      forall i | 0 <= i < n
        ensures Rows(ids)[i] == IdRow(prefix, i)
      {
        IdRowShape(prefix, i);
      }
    }
  }
}
