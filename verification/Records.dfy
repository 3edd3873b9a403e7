/** Lists of records in a byte string: a format that is exact for one record is exact for a list. */
module Records {
  import opened Options
  import opened Delimiters

  /** The bytes of `d` from `at` begin with `s`. */
  predicate Stands(s: bytes, d: bytes, at: nat) {
    at + |s| <= |d| && d[at..at + |s|] == s
  }

  lemma StandsSplit(a: bytes, b: bytes, d: bytes, at: nat)
    ensures Stands(a + b, d, at) <==> Stands(a, d, at) && Stands(b, d, at + |a|)
  {
    if at + |a + b| <= |d| {
      var s := d[at..at + |a + b|];
      assert s[..|a|] == d[at..at + |a|] && s[|a|..] == d[at + |a|..at + |a| + |b|];
      assert (a + b)[..|a|] == a && (a + b)[|a|..] == b;
      assert s == s[..|a|] + s[|a|..];
    }
  }

  /** How one record is read at an offset (with where it ends), how it is written, and when it can be. */
  datatype Format<!R> = Format(read: (bytes, nat) -> Option<(R, nat)>, write: R -> bytes, fits: R -> bool)

  function ParseAll<R>(f: Format<R>, d: bytes, at: nat, count: nat): Option<(seq<R>, nat)>
    decreases count
  {
    if count == 0 then Some(([], at)) else
    match f.read(d, at)
    case None => None
    case Some((row, next)) =>
      match ParseAll(f, d, next, count - 1)
      case None => None
      case Some((rows, end)) => Some(([row] + rows, end))
  }

  function PrintAll<R>(f: Format<R>, rows: seq<R>): bytes {
    if rows == [] then [] else f.write(rows[0]) + PrintAll(f, rows[1..])
  }

  predicate AllFit<R>(f: Format<R>, rows: seq<R>) {
    rows == [] || (f.fits(rows[0]) && AllFit(f, rows[1..]))
  }

  /** A record read at `at` that ends inside `d` stands there as it would be written, and never ends
      before it starts. */
  ghost predicate Sound<R>(f: Format<R>, d: bytes) {
    forall at: nat :: f.read(d, at).Some? ==>
      var (r, next) := f.read(d, at).value;
      next >= at && (next <= |d| ==> f.fits(r) && Stands(f.write(r), d, at) && next == at + |f.write(r)|)
  }

  /** `r` is read at `at` and ends where its written form does. */
  predicate ReadAs<R(==)>(f: Format<R>, d: bytes, at: nat, r: R) {
    var read := f.read(d, at);
    read.Some? && read.value.0 == r && read.value.1 == at + |f.write(r)|
  }

  /** A record that fits is read wherever it stands. */
  ghost predicate Complete<R(!new)>(f: Format<R>, d: bytes) {
    forall at: nat, r :: f.fits(r) && Stands(f.write(r), d, at) ==> ReadAs(f, d, at, r)
  }

  lemma {:induction false} Ends<R>(f: Format<R>, d: bytes, at: nat, count: nat)
    requires Sound(f, d) && ParseAll(f, d, at, count).Some?
    ensures ParseAll(f, d, at, count).value.1 >= at && |ParseAll(f, d, at, count).value.0| == count
    decreases count
  {
    if count > 0 { Ends(f, d, f.read(d, at).value.1, count - 1); }
  }

  lemma PrintMore<R>(f: Format<R>, r: R, rest: seq<R>)
    ensures PrintAll(f, [r] + rest) == f.write(r) + PrintAll(f, rest)
    ensures AllFit(f, [r] + rest) <==> f.fits(r) && AllFit(f, rest)
  {
    assert ([r] + rest)[1..] == rest;
  }

  /** Records that end inside the string were read whole: no slice on the way was cut short. */
  lemma {:induction false} AllSound<R>(f: Format<R>, d: bytes, at: nat, count: nat)
    requires Sound(f, d) && ParseAll(f, d, at, count).Some? && ParseAll(f, d, at, count).value.1 <= |d|
    ensures var (rows, end) := ParseAll(f, d, at, count).value;
            AllFit(f, rows) && Stands(PrintAll(f, rows), d, at) && end == at + |PrintAll(f, rows)|
    decreases count
  {
    if count > 0 {
      var (r, next) := f.read(d, at).value;
      Ends(f, d, next, count - 1);
      AllSound(f, d, next, count - 1);
      var rest := ParseAll(f, d, next, count - 1).value.0;
      PrintMore(f, r, rest);
      StandsSplit(f.write(r), PrintAll(f, rest), d, at);
    }
  }

  /** Records read up to the very end of the data print as the data they were read from. */
  lemma AllRead<R>(f: Format<R>, d: bytes, at: nat, count: nat, rows: seq<R>)
    requires Sound(f, d) == true && at <= |d| && ParseAll(f, d, at, count) == Some((rows, |d|))
    ensures |rows| == count && AllFit(f, rows) == true && PrintAll(f, rows) == d[at..]
  {
    Ends(f, d, at, count);
    AllSound(f, d, at, count);
    assert d[at..at + |PrintAll(f, rows)|] == d[at..];
  }

  lemma {:induction false} AllComplete<R(!new)>(f: Format<R>, d: bytes, at: nat, rows: seq<R>)
    requires Complete(f, d) && AllFit(f, rows) && Stands(PrintAll(f, rows), d, at)
    ensures ParseAll(f, d, at, |rows|).Some?
    ensures ParseAll(f, d, at, |rows|).value.0 == rows
    ensures ParseAll(f, d, at, |rows|).value.1 == at + |PrintAll(f, rows)|
    decreases |rows|
  {
    if rows != [] {
      var r, rest := rows[0], rows[1..];
      StandsSplit(f.write(r), PrintAll(f, rest), d, at);
      assert ReadAs(f, d, at, r);
      AllComplete(f, d, at + |f.write(r)|, rest);
      assert [r] + rest == rows;
    }
  }
}
