/**
 * Noel_Baba_2018/santa2c.py: generates data.c, the C source holding the
 * tables the `santa` extension links against: `asalsehirler`, the prime city
 * ids in increasing order, then the x and then the y coordinates of every
 * city. The generator appends text to one output file; here that file is a
 * growing string.
 *
 * Reading data/cities.csv and computing the primes are outside the model:
 * the city rows and the prime ids are inputs. Python's `str` of a float is the
 * parameter `fmt`.
 */
module DataC {
  import opened Wrappers
  import opened Text
  import Santa

  /** The X and Y columns of one row of data/cities.csv. */
  datatype City = City(x: real, y: real)

  /** `sieve.primerange(0, 197769)`: the bound is the number of cities. */
  const CityCount: nat := 197769

  const PrimeHeader := "unsigned int asalsehirler[] = {"
  const XHeader := "double x[]={"
  const YHeader := "double y[]={"
  /** Every section ends its line with this. */
  const Close := "};"

  /** `str(p)` of every prime, in order. */
  function Decimals(ps: seq<nat>): seq<string>
  {
    seq(|ps|, k requires 0 <= k < |ps| => Decimal(ps[k]))
  }

  /** `str(v)` of every value, in order. */
  function Render(vals: seq<real>, fmt: real -> string): seq<string>
  {
    seq(|vals|, k requires 0 <= k < |vals| => fmt(vals[k]))
  }

  /** `cities[:, 0]` and `cities[:, 1]`. */
  function Xs(cities: seq<City>): seq<real>
  {
    seq(|cities|, k requires 0 <= k < |cities| => cities[k].x)
  }

  function Ys(cities: seq<City>): seq<real>
  {
    seq(|cities|, k requires 0 <= k < |cities| => cities[k].y)
  }

  /** The prime line: every prime is followed by a comma, the last one too. */
  function PrimeLine(ps: seq<nat>): string
  {
    PrimeHeader + Join(Decimals(ps) + [""], ',') + Close
  }

  /** A coordinate line: the values separated by commas, none after the last. */
  function CoordLine(header: string, vals: seq<real>, fmt: real -> string): string
  {
    header + Join(Render(vals, fmt), ',') + Close
  }

  /** The contents of data.c. */
  function DataFile(ps: seq<nat>, cities: seq<City>, fmt: real -> string): string
  {
    PrimeLine(ps) + "\n" + CoordLine(XHeader, Xs(cities), fmt) + "\n"
      + CoordLine(YHeader, Ys(cities), fmt) + "\n"
  }

  /** Appending one more prime to the prime line's body. */
  lemma PrimeBodySnoc(ds: seq<string>, d: string)
    ensures Join(ds + [d] + [""], ',') == Join(ds + [""], ',') + d + ","
  {
    JoinSnoc(ds + [d], "", ',');
    if ds == [] {
      assert ds + [d] == [d];
      assert ds + [""] == [""];
    } else {
      JoinSnoc(ds, d, ',');
      JoinSnoc(ds, "", ',');
    }
  }

  /** The first loop: the prime line, each prime followed by a comma. */
  method WritePrimes(f0: string, primeids: seq<nat>) returns (f: string)
    ensures f == f0 + PrimeLine(primeids) + "\n"
  {
    f := f0 + "unsigned int asalsehirler[] = {";
    for k := 0 to |primeids|
      invariant f == f0 + PrimeHeader + Join(Decimals(primeids[..k]) + [""], ',')
    {
      assert primeids[..k + 1] == primeids[..k] + [primeids[k]];
      assert Decimals(primeids[..k + 1]) == Decimals(primeids[..k]) + [Decimal(primeids[k])];
      PrimeBodySnoc(Decimals(primeids[..k]), Decimal(primeids[k]));
      f := f + Decimal(primeids[k]) + ",";
    }
    assert primeids[..|primeids|] == primeids;
    f := f + "};\n";
  }

  /** The second and third loops: a coordinate line, the first value after the
      header and every further one after a comma. */
  method WriteColumn(f0: string, header: string, vals: seq<real>, fmt: real -> string) returns (f: string)
    requires |vals| >= 1
    ensures f == f0 + CoordLine(header, vals, fmt) + "\n"
  {
    f := f0 + header + fmt(vals[0]);
    assert vals[..1] == [vals[0]];
    for k := 1 to |vals|
      invariant f == f0 + header + Join(Render(vals[..k], fmt), ',')
    {
      assert vals[..k + 1] == vals[..k] + [vals[k]];
      assert Render(vals[..k + 1], fmt) == Render(vals[..k], fmt) + [fmt(vals[k])];
      JoinSnoc(Render(vals[..k], fmt), fmt(vals[k]), ',');
      f := f + "," + fmt(vals[k]);
    }
    assert vals[..|vals|] == vals;
    f := f + "};\n";
  }

  /** The generator. Without any city row, `cities[0,0]` raises IndexError
      (`ok` is false) after the prime line has been written. */
  method WriteDataC(primeids: seq<nat>, cities: seq<City>, fmt: real -> string)
    returns (f: string, ok: bool)
    ensures ok <==> |cities| >= 1
    ensures ok ==> f == DataFile(primeids, cities, fmt)
    ensures !ok ==> f == PrimeLine(primeids) + "\n"
  {
    f := WritePrimes("", primeids);
    if |cities| == 0 {
      return f, false;
    }
    ghost var p := f;
    f := WriteColumn(f, "double x[]={", Xs(cities), fmt);
    ghost var px := f;
    f := WriteColumn(f, "double y[]={", Ys(cities), fmt);
    assert p == PrimeLine(primeids) + "\n";
    assert px == PrimeLine(primeids) + "\n" + CoordLine(XHeader, Xs(cities), fmt) + "\n";
    ok := true;
  }

  // ---- Reading data.c back ----

  /** The text between `header` and the closing `};` of a line, if it has them. */
  function Body(line: string, header: string): Option<string>
  {
    if |header| + |Close| <= |line| && line[..|header|] == header && line[|line| - |Close|..] == Close
    then Some(line[|header|..|line| - |Close|]) else None
  }

  /** Reads the prime line back: its comma-terminated decimal numbers. */
  function ParsePrimeLine(line: string): Option<seq<nat>>
  {
    match Body(line, PrimeHeader)
    case None => None
    case Some(b) =>
      var fields := Split(b, ',');
      var n := |fields| - 1;
      if fields[n] == [] && forall k :: 0 <= k < n ==> fields[k] != [] && IsDigits(fields[k])
      then Some(seq(n, k requires 0 <= k < n && IsDigits(fields[k]) => ParseDecimal(fields[k])))
      else None
  }

  /** C reads back the primes that were written, in the order written. */
  lemma PrimeLineRoundTrip(ps: seq<nat>)
    ensures ParsePrimeLine(PrimeLine(ps)) == Some(ps)
  {
    var line := PrimeLine(ps);
    var b := Join(Decimals(ps) + [""], ',');
    assert line[..|PrimeHeader|] == PrimeHeader;
    assert line[|line| - |Close|..] == Close;
    assert line[|PrimeHeader|..|line| - |Close|] == b;
    var parts := Decimals(ps) + [""];
    assert forall k :: 0 <= k < |parts| ==> ',' !in parts[k] by {
      forall k | 0 <= k < |parts| ensures ',' !in parts[k] {
        if k < |ps| {
          assert IsDigits(parts[k]);
        }
      }
    }
    SplitJoin(parts, ',');
    assert Body(line, PrimeHeader) == Some(b);
    var fields := Split(b, ',');
    assert fields == parts && |fields| - 1 == |ps| && fields[|ps|] == [];
    forall k | 0 <= k < |ps| ensures fields[k] != [] && IsDigits(fields[k]) {
      assert fields[k] == Decimal(ps[k]);
    }
    var r := seq(|ps|, k requires 0 <= k < |ps| && IsDigits(fields[k]) => ParseDecimal(fields[k]));
    assert ParsePrimeLine(line) == Some(r);
    forall k | 0 <= k < |ps| ensures r[k] == ps[k] {
      ParseDecimalOfDecimal(ps[k]);
    }
    assert r == ps;
  }

  /** With at least one prime the line ends ",};": a comma after the last prime. */
  lemma PrimeLineTrailingComma(ps: seq<nat>)
    requires ps != []
    ensures var line := PrimeLine(ps); line[|line| - 3..] == ",};"
  {
    var ds := Decimals(ps);
    var n := |ds|;
    assert ds == ds[..n - 1] + [ds[n - 1]];
    PrimeBodySnoc(ds[..n - 1], ds[n - 1]);
  }

  /** `fmt` never produces a comma or a line break (true of Python's `str` of a float). */
  ghost predicate PlainNumerals(fmt: real -> string)
  {
    forall v :: ',' !in fmt(v) && '\n' !in fmt(v)
  }

  /** A coordinate line holds one comma-separated field per row, the `k`-th the
      text of the `k`-th value, and no empty field after a trailing comma. */
  lemma CoordLineFields(header: string, vals: seq<real>, fmt: real -> string)
    requires |vals| >= 1 && PlainNumerals(fmt)
    ensures var line := CoordLine(header, vals, fmt);
            Body(line, header).Some? && Split(Body(line, header).value, ',') == Render(vals, fmt)
  {
    var line := CoordLine(header, vals, fmt);
    var b := Join(Render(vals, fmt), ',');
    assert line[..|header|] == header;
    assert line[|line| - |Close|..] == Close;
    assert line[|header|..|line| - |Close|] == b;
    forall k | 0 <= k < |vals| ensures ',' !in Render(vals, fmt)[k] {
      var v := vals[k];
      assert ',' !in fmt(v);
      assert Render(vals, fmt)[k] == fmt(v);
    }
    SplitJoin(Render(vals, fmt), ',');
  }

  /** A join of parts without `c`, with a separator other than `c`, has no `c`. */
  lemma {:induction false} JoinAvoids(parts: seq<string>, sep: char, c: char)
    requires sep != c && forall k :: 0 <= k < |parts| ==> c !in parts[k]
    ensures c !in Join(parts, sep)
    decreases |parts|
  {
    if |parts| > 1 {
      JoinAvoids(parts[1..], sep, c);
    }
  }

  /** data.c is exactly three lines, in order: the primes, the x and the y
      coordinates, with nothing around or between them. */
  lemma DataFileLines(ps: seq<nat>, cities: seq<City>, fmt: real -> string)
    requires PlainNumerals(fmt)
    ensures Split(DataFile(ps, cities, fmt), '\n')
            == [PrimeLine(ps), CoordLine(XHeader, Xs(cities), fmt), CoordLine(YHeader, Ys(cities), fmt), ""]
  {
    var p, x, y := PrimeLine(ps), CoordLine(XHeader, Xs(cities), fmt), CoordLine(YHeader, Ys(cities), fmt);
    var parts := Decimals(ps) + [""];
    forall k | 0 <= k < |parts| ensures '\n' !in parts[k] {
      if k < |ps| {
        assert IsDigits(parts[k]);
      }
    }
    JoinAvoids(parts, ',', '\n');
    JoinAvoids(Render(Xs(cities), fmt), ',', '\n');
    JoinAvoids(Render(Ys(cities), fmt), ',', '\n');
    assert '\n' !in p && '\n' !in x && '\n' !in y;
    assert DataFile(ps, cities, fmt) == p + ['\n'] + (x + ['\n'] + (y + ['\n'] + ""));
    SplitCons(y, "", '\n');
    SplitCons(x, y + ['\n'] + "", '\n');
    SplitCons(p, x + ['\n'] + (y + ['\n'] + ""), '\n');
  }

  // ---- The table the bsearch in pysanta.c relies on ----

  ghost predicate IsPrime(n: int)
  {
    n >= 2 && forall d :: 2 <= d < n ==> n % d != 0
  }

  /** What `sieve.primerange(lo, hi)` yields: every prime in [lo, hi), each once,
      in increasing order. */
  ghost predicate IsPrimeRange(ps: seq<nat>, lo: nat, hi: nat)
  {
    && (forall i, j :: 0 <= i < j < |ps| ==> ps[i] < ps[j])
    && (forall i :: 0 <= i < |ps| ==> lo <= ps[i] < hi && IsPrime(ps[i]))
    && (forall n: nat :: lo <= n < hi && IsPrime(n) ==> n in ps)
  }

  /** The emitted prime table meets the requirement of the bsearch in pysanta.c
      (ascending, entries non-negative ints) and a city id below the city count
      is in it exactly when it is prime. */
  lemma PrimeTableSearchable(ps: seq<nat>)
    requires IsPrimeRange(ps, 0, CityCount)
    ensures Santa.SearchableTable(ps)
    ensures forall id: nat :: id < CityCount ==> (id in ps <==> IsPrime(id))
  {
    forall i, j | 0 <= i < j < |ps| ensures ps[i] <= ps[j] {
    }
  }
}
