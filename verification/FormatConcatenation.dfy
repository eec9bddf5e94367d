/** A format prints the same wherever it stands: two formats behind each other print their texts behind each
    other (libc/stdio/stdio.c, _vsnprintf). */
module FormatConcatenation {
  import opened Words
  import opened Numerals
  import opened IntegerFormat
  import opened FormatSpecs
  import opened Conversions

  /** Up to index n, f reads like g from index d on. */
  ghost predicate Agree(f: CString, g: CString, d: nat, n: nat) {
    forall k :: 0 <= k < n ==> At(f, k) == At(g, k + d)
  }

  lemma {:induction false} FlagsAgree(f: CString, g: CString, d: nat, n: nat, i: nat, flags: Flags)
    requires Agree(f, g, d, n) && ReadFlags(f, i, flags).1 < n
    ensures ReadFlags(g, i + d, flags) == (ReadFlags(f, i, flags).0, ReadFlags(f, i, flags).1 + d)
    decreases |f| - i
  {
    assert At(f, i) == At(g, i + d);
    if IsFlag(At(f, i)) {
      FlagsAgree(f, g, d, n, i + 1, flags + {FlagOf(At(f, i))});
    }
  }

  lemma {:induction false} NumberEndAgree(f: CString, g: CString, d: nat, n: nat, i: nat)
    requires Agree(f, g, d, n) && NumberEnd(f, i) < n && i <= |f| && i + d <= |g|
    ensures NumberEnd(g, i + d) == NumberEnd(f, i) + d
    ensures f[i..NumberEnd(f, i)] == g[i + d..NumberEnd(g, i + d)]
    decreases |f| - i
  {
    assert At(f, i) == At(g, i + d);
    if IsDigit(At(f, i)) {
      NumberEndAgree(f, g, d, n, i + 1);
      var end := NumberEnd(f, i);
      assert f[i..end] == [f[i]] + f[i + 1..end];
      assert g[i + d..end + d] == [g[i + d]] + g[i + d + 1..end + d];
    }
  }

  /** The same fields, read d characters later. */
  function Later(p: Fields, d: nat): Fields {
    p.(at := p.at + d)
  }

  lemma WidthAgrees(f: CString, g: CString, d: nat, n: nat, p: Fields)
    requires Agree(f, g, d, n) && p.at <= |f| && p.at + d <= |g|
    requires ReadWidth(f, p).Some? && ReadWidth(f, p).value.at < n
    ensures ReadWidth(g, Later(p, d)) == Some(Later(ReadWidth(f, p).value, d))
  {
    assert At(f, p.at) == At(g, p.at + d);
    if IsDigit(At(f, p.at)) {
      NumberEndAgree(f, g, d, n, p.at);
    }
  }

  lemma PrecisionAgrees(f: CString, g: CString, d: nat, n: nat, p: Fields)
    requires Agree(f, g, d, n) && p.at <= |f| && p.at + d <= |g|
    requires ReadPrecision(f, p).Some? && ReadPrecision(f, p).value.at < n
    ensures ReadPrecision(g, Later(p, d)) == Some(Later(ReadPrecision(f, p).value, d))
  {
    assert At(f, p.at) == At(g, p.at + d);
    if At(f, p.at) == '.' {
      assert At(f, p.at + 1) == At(g, p.at + d + 1);
      if IsDigit(At(f, p.at + 1)) {
        NumberEndAgree(f, g, d, n, p.at + 1);
      }
    }
  }

  lemma LengthAgrees(f: CString, g: CString, d: nat, n: nat, p: Fields)
    requires Agree(f, g, d, n) && p.at <= |f| && p.at + d <= |g| && ReadLength(f, p).at < n
    ensures ReadLength(g, Later(p, d)) == Later(ReadLength(f, p), d)
  {
    assert At(f, p.at) == At(g, p.at + d);
    if ReadLength(f, p).at > p.at {
      assert At(f, p.at + 1) == At(g, p.at + d + 1);
    }
  }

  lemma RestAgrees(f: CString, g: CString, d: nat, n: nat, p: Fields, q: Fields, end: Fields, last: Fields)
    requires Agree(f, g, d, n) && p.at <= |f| && q.at <= |g| && q == Later(p, d)
    requires ReadRest(f, p) == Some(end) && end.at < n && last == Later(end, d)
    ensures ReadRest(g, q) == Some(last)
  {
    var behindWidth := ReadWidth(f, p).value;
    var behindPrecision := ReadPrecision(f, behindWidth).value;
    WidthAgrees(f, g, d, n, p);
    PrecisionAgrees(f, g, d, n, behindWidth);
    LengthAgrees(f, g, d, n, behindPrecision);
    OneByOne(g, q, Later(behindWidth, d), Later(behindPrecision, d), last);
  }

  lemma FieldsAgree(f: CString, g: CString, d: nat, n: nat, i: nat, j: nat, args: seq<Arg>, p: Fields, q: Fields)
    requires Agree(f, g, d, n) && i <= |f| && j <= |g| && j == i + d
    requires ReadFields(f, i, args) == Some(p) && p.at < n && q == Later(p, d)
    ensures ReadFields(g, j, args) == Some(q)
  {
    var (flags, at) := ReadFlags(f, i, {});
    var start := Fields(flags, 0, 0, at, args);
    FlagsAgree(f, g, d, n, i, {});
    FlagsFirst(f, i, args, start);
    FlagsFirst(g, j, args, Later(start, d));
    RestAgrees(f, g, d, n, start, Later(start, d), p, q);
  }

  /** A conversion does not depend on where its specification stands. */
  lemma ConversionAnywhere(c: char, p: Fields, q: Fields)
    requires q == p.(at := q.at)
    ensures Conversion(c, q) == Conversion(c, p)
  {
  }

  lemma SameChar(f: CString, g: CString, d: nat, n: nat, k: nat, l: nat)
    requires Agree(f, g, d, n) && k < n <= |f| && n + d <= |g| && l == k + d
    ensures f[k] == g[l]
  {
    assert At(f, k) == At(g, k + d);
  }

  lemma TurnsAgree(f: CString, g: CString, d: nat, n: nat, i: nat, j: nat, args: seq<Arg>, t: Turn, u: Turn)
    requires Agree(f, g, d, n) && i < n <= |f| && n + d <= |g| && j == i + d
    requires TurnAt(f, i, args) == Some(t) && t.behind <= n && u == t.(behind := t.behind + d)
    ensures TurnAt(g, j, args) == Some(u)
  {
    SameChar(f, g, d, n, i, j);
    if f[i] == '%' {
      var p := ReadFields(f, i + 1, args).value;
      SameSpec(f, g, d, n, i, j, args, p, Later(p, d), f[p.at]);
      SameTurn(f, g, i, j, args, p, Later(p, d), f[p.at], t, u);
    }
  }

  lemma SameSpec(f: CString, g: CString, d: nat, n: nat, i: nat, j: nat, args: seq<Arg>, p: Fields, q: Fields, c: char)
    requires Agree(f, g, d, n) && i < n <= |f| && n + d <= |g| && j == i + d
    requires ReadFields(f, i + 1, args) == Some(p) && p.at < n && q == Later(p, d) && f[p.at] == c
    ensures ReadFields(g, j + 1, args) == Some(q) && g[q.at] == c
  {
    FieldsAgree(f, g, d, n, i + 1, j + 1, args, p, q);
    SameChar(f, g, d, n, p.at, q.at);
  }

  lemma SameTurn(f: CString, g: CString, i: nat, j: nat, args: seq<Arg>, p: Fields, q: Fields, c: char,
                 t: Turn, u: Turn)
    requires i < |f| && f[i] == '%' && ReadFields(f, i + 1, args) == Some(p) && p.at < |f| && f[p.at] == c
    requires j < |g| && g[j] == '%' && ReadFields(g, j + 1, args) == Some(q) && q.at < |g| && g[q.at] == c
    requires q == p.(at := q.at) && TurnAt(f, i, args) == Some(t) && u == t.(behind := q.at + 1)
    ensures TurnAt(g, j, args) == Some(u)
  {
    TurnOfFields(f, i, args, p);
    ConversionAnywhere(c, p, q);
    TurnOfFields(g, j, args, q);
  }

  /** The second format prints the same behind another one. */
  lemma {:induction false} RenderedBehind(b: CString, g: CString, d: nat, i: nat, j: nat, args: seq<Arg>,
                                          r: (string, seq<Arg>))
    requires Agree(b, g, d, |b|) && |g| == |b| + d && i <= |b| && j == i + d && Rendered(b, i, args) == Some(r)
    ensures Rendered(g, j, args) == Some(r)
    decreases |b| - i
  {
    if i < |b| {
      var t := TurnAt(b, i, args).value;
      var u := t.(behind := t.behind + d);
      RenderedTurn(b, i, args, t);
      TurnsAgree(b, g, d, |b|, i, j, args, t, u);
      RenderedBehind(b, g, d, t.behind, u.behind, t.rest, Rendered(b, t.behind, t.rest).value);
      RenderedTurn(g, j, args, u);
    }
  }

  lemma {:induction false} RenderedInTurn(a: CString, b: CString, g: CString, i: nat, args: seq<Arg>,
                                          ra: (string, seq<Arg>), rb: (string, seq<Arg>), rg: (string, seq<Arg>))
    requires Agree(a, g, 0, |a|) && Agree(b, g, |a|, |b|) && |g| == |b| + |a|
    requires i <= |a| && Rendered(a, i, args) == Some(ra) && Rendered(b, 0, ra.1) == Some(rb)
    requires rg.0 == ra.0 + rb.0 && rg.1 == rb.1
    ensures Rendered(g, i, args) == Some(rg)
    decreases |a| - i
  {
    if i == |a| {
      RenderedEnd(a, i, args, ra, rb, rg);
      RenderedBehind(b, g, |a|, 0, i, ra.1, rb);
    } else {
      var t := TurnAt(a, i, args).value;
      var more := Rendered(a, t.behind, t.rest).value;
      RenderedTurn(a, i, args, t);
      TurnsAgree(a, g, 0, |a|, i, i, args, t, t);
      RenderedInTurn(a, b, g, t.behind, t.rest, more, rb, (more.0 + rb.0, rb.1));
      RenderedTurn(g, i, args, t);
      Regroup(PieceText(t.piece), more.0, rb.0);
    }
  }

  lemma RenderedEnd(a: CString, i: nat, args: seq<Arg>,
                    ra: (string, seq<Arg>), rb: (string, seq<Arg>), rg: (string, seq<Arg>))
    requires i == |a| && Rendered(a, i, args) == Some(ra) && rg.0 == ra.0 + rb.0 && rg.1 == rb.1
    ensures rg == rb
  {
    assert ra.0 == [];
    assert [] + rb.0 == rb.0;
  }

  lemma Regroup(x: string, y: string, z: string)
    ensures x + (y + z) == (x + y) + z
  {
  }

  /** Two formats behind each other print their texts behind each other; the second one takes the arguments
      that the first one leaves. */
  lemma RenderedConcat(a: CString, b: CString, args: seq<Arg>, ra: (string, seq<Arg>), rb: (string, seq<Arg>))
    requires Rendered(a, 0, args) == Some(ra) && Rendered(b, 0, ra.1) == Some(rb)
    ensures Rendered(a + b, 0, args) == Some((ra.0 + rb.0, rb.1))
  {
    RenderedInTurn(a, b, a + b, 0, args, ra, rb, (ra.0 + rb.0, rb.1));
  }
}
