/**
 * The address-to-key conversion of src/conversion_utils.rs (`ip_to_i32`).
 *
 * The text is cut at the first ':', the rest is split on '.', and the first
 * four pieces are parsed as Rust `u32`s and combined into the weighted sum
 * s0*1 + s1*2 + s2*3 + s3*4.  The arithmetic is the release-build `u32`
 * arithmetic, which wraps modulo 2^32.
 */
module ConversionUtils {
  import opened Types

  // ---------------------------------------------------------------------------
  // `str::split` with a one-character pattern
  // ---------------------------------------------------------------------------

  /** The pieces joined back together, with `sep` between neighbours. */
  function Join(pieces: seq<string>, sep: char): string
  {
    if |pieces| == 0 then ""
    else if |pieces| == 1 then pieces[0]
    else pieces[0] + [sep] + Join(pieces[1..], sep)
  }

  /**
   * Rust's `s.split(sep)`: the maximal runs between separators, including the
   * empty ones, so that there is always at least one piece.
   */
  function Split(s: string, sep: char): (pieces: seq<string>)
    ensures |pieces| >= 1
    ensures forall k :: 0 <= k < |pieces| ==> sep !in pieces[k]
    ensures Join(pieces, sep) == s
    ensures pieces[0] <= s && (pieces[0] == s || s[|pieces[0]|] == sep)
  {
    if |s| == 0 then [""]
    else
      var rest := Split(s[1..], sep);
      if s[0] == sep then
        [""] + rest
      else
        var pieces := [[s[0]] + rest[0]] + rest[1..];
        assert pieces[1..] == rest[1..];
        pieces
  }

  lemma {:induction false} SplitWithoutSeparator(a: string, sep: char)
    requires sep !in a
    ensures Split(a, sep) == [a]
  {
    if |a| > 0 {
      assert sep !in a[1..] by {
        forall k | 0 <= k < |a[1..]| ensures a[1..][k] != sep {
          assert a[1..][k] == a[k + 1];
        }
      }
      SplitWithoutSeparator(a[1..], sep);
    }
  }

  lemma {:induction false} SplitAfterPiece(a: string, sep: char, rest: string)
    requires sep !in a
    ensures Split(a + [sep] + rest, sep) == [a] + Split(rest, sep)
  {
    var s := a + [sep] + rest;
    if |a| == 0 {
      assert s[0] == sep && s[1..] == rest;
    } else {
      assert sep !in a[1..] by {
        forall k | 0 <= k < |a[1..]| ensures a[1..][k] != sep {
          assert a[1..][k] == a[k + 1];
        }
      }
      var tail := a[1..] + [sep] + rest;
      assert s[0] == a[0] != sep && s[1..] == tail by {
        assert a[0] in a;
      }
      assert Split(tail, sep) == [a[1..]] + Split(rest, sep) by {
        SplitAfterPiece(a[1..], sep, rest);
      }
      assert [a[0]] + a[1..] == a;
    }
  }

  // ---------------------------------------------------------------------------
  // `u32::from_str`
  // ---------------------------------------------------------------------------

  predicate IsDigit(c: char)
  {
    '0' <= c <= '9'
  }

  predicate AllDigits(s: string)
  {
    forall k :: 0 <= k < |s| ==> IsDigit(s[k])
  }

  /** The value of a run of decimal digits, most significant first. */
  function DigitsValue(s: string): nat
    requires AllDigits(s)
  {
    if |s| == 0 then 0
    else DigitsValue(s[..|s| - 1]) * 10 + ((s[|s| - 1] as int) - ('0' as int))
  }

  /**
   * Rust's `s.parse::<u32>()`: an optional leading '+', then one or more ASCII
   * digits whose value fits in a `u32`.  The empty text, a lone sign, any other
   * character (a '-' included) and an overflowing value are all errors.
   */
  function ParseU32(s: string): (r: Option<uint32>)
    ensures r.Some? ==> s != "" && s != "+" && forall k :: 0 <= k < |s| ==> IsDigit(s[k]) || (k == 0 && s[k] == '+')
    ensures s != "" && AllDigits(s) && DigitsValue(s) < UINT32_LIMIT ==> r == Some(DigitsValue(s))
  {
    if |s| == 0 then None
    else
      var digits := if s[0] == '+' then s[1..] else s;
      if |digits| == 0 || !AllDigits(digits) then None
      else if DigitsValue(digits) >= UINT32_LIMIT then None
      else Some(DigitsValue(digits))
  }

  /** The shortest decimal rendering of `n`, the partner of `ParseU32`. */
  function Decimal(n: nat): (s: string)
    ensures |s| >= 1 && AllDigits(s)
    ensures |s| > 1 ==> s[0] != '0'
    ensures DigitsValue(s) == n
  {
    if n < 10 then [('0' as int + n) as char]
    else
      var s := Decimal(n / 10) + [('0' as int + n % 10) as char];
      assert s[..|s| - 1] == Decimal(n / 10);
      s
  }

  /** Parsing a decimal rendering, with or without '+', gives the number back when it fits. */
  lemma {:induction false} ParseDecimal(n: nat)
    ensures ParseU32(Decimal(n)) == if n < UINT32_LIMIT then Some(n) else None
    ensures ParseU32("+" + Decimal(n)) == ParseU32(Decimal(n))
  {
    var s := "+" + Decimal(n);
    assert s[1..] == Decimal(n);
  }

  /** The three ways a piece fails to parse. */
  lemma {:induction false} ParseFailures(s: string)
    ensures ParseU32("") == None
    ensures ParseU32("+") == None
    ensures (exists k :: 0 <= k < |s| && !IsDigit(s[k]) && s[k] != '+') ==> ParseU32(s) == None
    ensures AllDigits(s) && |s| > 0 && DigitsValue(s) >= UINT32_LIMIT ==> ParseU32(s) == None
  {
    if exists k :: 0 <= k < |s| && !IsDigit(s[k]) && s[k] != '+' {
      var k :| 0 <= k < |s| && !IsDigit(s[k]) && s[k] != '+';
      if |s| > 0 && s[0] == '+' {
        assert s[1..][k - 1] == s[k];
      }
    }
  }

  // ---------------------------------------------------------------------------
  // Wrapping `u32` arithmetic of a release build
  // ---------------------------------------------------------------------------

  /** `a + b` on `u32`: the sum when it fits, otherwise the sum less 2^32. */
  function WrappingAdd(a: uint32, b: uint32): (r: uint32)
    ensures a + b < UINT32_LIMIT ==> r == a + b
    ensures a + b >= UINT32_LIMIT ==> r == a + b - UINT32_LIMIT
  {
    (a + b) % UINT32_LIMIT
  }

  /** `a * b` on `u32`: the product when it fits, and in any case congruent to it modulo 2^32. */
  function WrappingMul(a: uint32, b: uint32): (r: uint32)
    ensures a * b < UINT32_LIMIT ==> r == a * b
    ensures (a * b - r) % UINT32_LIMIT == 0
  {
    (a * b) % UINT32_LIMIT
  }

  // ---------------------------------------------------------------------------
  // `ip_to_i32`
  // ---------------------------------------------------------------------------

  /** s0*1 + s1*2 + ... over the parsed pieces, without wrap-around. */
  function WeightedSum(values: seq<uint32>): nat
  {
    if |values| == 0 then 0
    else WeightedSum(values[..|values| - 1]) + values[|values| - 1] * |values|
  }

  /** One step of `out += s * (i as u32 + 1)` keeps `out` equal to the exact sum modulo 2^32. */
  lemma {:induction false} WrappingStep(parsed: seq<uint32>, s: uint32, out: uint32)
    requires |parsed| < 4
    requires out == WeightedSum(parsed) % UINT32_LIMIT
    ensures WrappingAdd(out, WrappingMul(s, |parsed| + 1)) == WeightedSum(parsed + [s]) % UINT32_LIMIT
  {
    var next := parsed + [s];
    assert next[..|next| - 1] == parsed;
    var term := s * (|parsed| + 1);
    assert WeightedSum(next) == WeightedSum(parsed) + term;
  }

  lemma {:induction false} WeightedSumOfFour(a: uint32, b: uint32, c: uint32, d: uint32)
    ensures WeightedSum([a, b, c, d]) == a + 2 * b + 3 * c + 4 * d
  {
    assert [a, b, c, d][..3] == [a, b, c];
    assert [a, b, c][..2] == [a, b];
    assert [a, b][..1] == [a];
    assert [a][..0] == [];
    assert WeightedSum([a]) == a;
    assert WeightedSum([a, b]) == a + 2 * b;
    assert WeightedSum([a, b, c]) == a + 2 * b + 3 * c;
  }

  /** The '.'-separated pieces of the text before the first ':'. */
  function Segments(ip: string): (segs: seq<string>)
    ensures |segs| >= 1 && forall k :: 0 <= k < |segs| ==> '.' !in segs[k]
    ensures ':' !in Join(segs, '.') && Join(segs, '.') <= ip
    ensures Join(segs, '.') == ip || ip[|Join(segs, '.')|] == ':'
  {
    Split(Split(ip, ':')[0], '.')
  }

  /** Parses every piece, or fails if any piece fails. */
  function ParseSegments(segs: seq<string>): (r: Option<seq<uint32>>)
    ensures r.Some? <==> forall k :: 0 <= k < |segs| ==> ParseU32(segs[k]).Some?
    ensures r.Some? ==> |r.value| == |segs| && forall k :: 0 <= k < |segs| ==> ParseU32(segs[k]) == Some(r.value[k])
  {
    if |segs| == 0 then Some([])
    else
      var front := segs[..|segs| - 1];
      assert forall k :: 0 <= k < |front| ==> front[k] == segs[k];
      match (ParseSegments(front), ParseU32(segs[|segs| - 1]))
      case (Some(values), Some(v)) => Some(values + [v])
      case _ => None
  }

  /** What `ip_to_i32` returns for `ip`. */
  function IpToKey(ip: string): (key: Option<uint32>)
    ensures key.Some? <==> |Segments(ip)| >= 4 && forall k :: 0 <= k < 4 ==> ParseU32(Segments(ip)[k]).Some?
  {
    var segs := Segments(ip);
    if |segs| < 4 then None
    else
      assert forall k :: 0 <= k < 4 ==> segs[..4][k] == segs[k];
      match ParseSegments(segs[..4])
      case None => None
      case Some(values) => Some(WeightedSum(values) % UINT32_LIMIT)
  }

  /** src/conversion_utils.rs `ip_to_i32`, loop and early returns included. */
  method IpToI32(ip: string) returns (r: Option<uint32>)
    ensures r == IpToKey(ip)
  {
    var portSplit := Split(ip, ':');
    // The source's `port_split.len() < 1` guard is left out: Split never
    // returns an empty sequence (see its contract).
    var ipSplit := Split(portSplit[0], '.');
    if |ipSplit| < 4 {
      return None;
    }
    var out: uint32 := 0;
    ghost var parsed: seq<uint32> := [];
    for i := 0 to 4
      invariant ParseSegments(ipSplit[..i]) == Some(parsed)
      invariant out == WeightedSum(parsed) % UINT32_LIMIT
    {
      match ParseU32(ipSplit[i]) {
        case Some(s) =>
          ParseStep(ipSplit, i, parsed, s);
          WrappingStep(parsed, s, out);
          out := WrappingAdd(out, WrappingMul(s, i + 1));
          parsed := parsed + [s];
        case None =>
          assert ipSplit[..4][i] == ipSplit[i];
          return None;
      }
    }
    return Some(out);
  }

  /** Parsing one more piece extends the parsed prefix and its weighted sum. */
  lemma {:induction false} ParseStep(segs: seq<string>, i: nat, parsed: seq<uint32>, s: uint32)
    requires i < |segs|
    requires ParseSegments(segs[..i]) == Some(parsed)
    requires ParseU32(segs[i]) == Some(s)
    ensures ParseSegments(segs[..i + 1]) == Some(parsed + [s])
  {
    assert segs[..i + 1][..i] == segs[..i];
  }

  // ---------------------------------------------------------------------------
  // Properties of `ip_to_i32`
  // ---------------------------------------------------------------------------

  /** Fewer than four '.'-separated pieces before the first ':' are rejected. */
  lemma {:induction false} ShortAddressRejected(ip: string)
    requires |Segments(ip)| < 4
    ensures IpToKey(ip) == None
  {
  }

  /** A piece among the first four that is not a `u32` is rejected. */
  lemma {:induction false} BadSegmentRejected(ip: string, k: nat)
    requires k < 4 <= |Segments(ip)|
    requires ParseU32(Segments(ip)[k]) == None
    ensures IpToKey(ip) == None
  {
    assert Segments(ip)[..4][k] == Segments(ip)[k];
  }

  /** On success the key is the weighted sum of the first four pieces, modulo 2^32. */
  lemma {:induction false} AcceptedKeyIsWeightedSum(ip: string, a: uint32, b: uint32, c: uint32, d: uint32)
    requires |Segments(ip)| >= 4
    requires ParseU32(Segments(ip)[0]) == Some(a) && ParseU32(Segments(ip)[1]) == Some(b)
    requires ParseU32(Segments(ip)[2]) == Some(c) && ParseU32(Segments(ip)[3]) == Some(d)
    ensures IpToKey(ip) == Some((a + 2 * b + 3 * c + 4 * d) % UINT32_LIMIT)
  {
    var segs := Segments(ip);
    assert ParseSegments(segs[..4]) == Some([a, b, c, d]) by {
      assert forall k :: 0 <= k < 4 ==> segs[..4][k] == segs[k];
      ParseFour(segs[..4], a, b, c, d);
    }
    WeightedSumOfFour(a, b, c, d);
  }

  /** Four pieces that each parse give the four parsed values. */
  lemma {:induction false} ParseFour(segs: seq<string>, a: uint32, b: uint32, c: uint32, d: uint32)
    requires |segs| == 4
    requires ParseU32(segs[0]) == Some(a) && ParseU32(segs[1]) == Some(b)
    requires ParseU32(segs[2]) == Some(c) && ParseU32(segs[3]) == Some(d)
    ensures ParseSegments(segs) == Some([a, b, c, d])
  {
    assert forall k :: 0 <= k < 4 ==> ParseU32(segs[k]).Some?;
    var values := ParseSegments(segs).value;
    assert |values| == 4;
    assert values[0] == a && values[1] == b && values[2] == c && values[3] == d;
    assert values == [a, b, c, d];
  }

  /** Everything from the first ':' on is ignored. */
  lemma {:induction false} PortIgnored(host: string, port: string)
    requires ':' !in host
    ensures IpToKey(host + ":" + port) == IpToKey(host)
  {
    SplitAfterPiece(host, ':', port);
    SplitWithoutSeparator(host, ':');
  }

  /** Splitting undoes joining, for pieces free of the separator. */
  lemma {:induction false} SplitJoin(pieces: seq<string>, sep: char)
    requires |pieces| >= 1
    requires forall k :: 0 <= k < |pieces| ==> sep !in pieces[k]
    ensures Split(Join(pieces, sep), sep) == pieces
  {
    if |pieces| == 1 {
      SplitWithoutSeparator(pieces[0], sep);
    } else {
      SplitJoin(pieces[1..], sep);
      SplitAfterPiece(pieces[0], sep, Join(pieces[1..], sep));
      assert [pieces[0]] + pieces[1..] == pieces;
    }
  }

  /** A character found in no piece and different from the separator is not in the joined text. */
  lemma {:induction false} NotInJoin(pieces: seq<string>, sep: char, c: char)
    requires c != sep
    requires forall k :: 0 <= k < |pieces| ==> c !in pieces[k]
    ensures c !in Join(pieces, sep)
  {
    if |pieces| > 1 {
      NotInJoin(pieces[1..], sep, c);
    }
  }

  /** Pieces after the fourth are ignored: `a.b.c.d.e...` reads like `a.b.c.d`. */
  lemma {:induction false} ExtraSegmentsIgnored(pieces: seq<string>)
    requires |pieces| >= 4
    requires forall k :: 0 <= k < |pieces| ==> '.' !in pieces[k] && ':' !in pieces[k]
    ensures IpToKey(Join(pieces, '.')) == IpToKey(Join(pieces[..4], '.'))
  {
    var first := pieces[..4];
    NotInJoin(pieces, '.', ':');
    NotInJoin(first, '.', ':');
    SplitWithoutSeparator(Join(pieces, '.'), ':');
    SplitWithoutSeparator(Join(first, '.'), ':');
    SplitJoin(pieces, '.');
    SplitJoin(first, '.');
    assert pieces[..4] == first[..4];
  }

  /** The pieces of a '.'-joined address without ':' are exactly the joined pieces. */
  lemma {:induction false} SegmentsOfJoin(pieces: seq<string>)
    requires |pieces| >= 1
    requires forall k :: 0 <= k < |pieces| ==> '.' !in pieces[k] && ':' !in pieces[k]
    ensures Segments(Join(pieces, '.')) == pieces
  {
    NotInJoin(pieces, '.', ':');
    SplitWithoutSeparator(Join(pieces, '.'), ':');
    SplitJoin(pieces, '.');
  }

  lemma {:induction false} DecimalHasNoSeparators(n: nat)
    ensures '.' !in Decimal(n) && ':' !in Decimal(n)
  {
    var s := Decimal(n);
    assert forall j :: 0 <= j < |s| ==> IsDigit(s[j]);
  }

  lemma {:induction false} SegmentsOfDecimalQuad(a: nat, b: nat, c: nat, d: nat)
    ensures Segments(DecimalQuad(a, b, c, d)) == [Decimal(a), Decimal(b), Decimal(c), Decimal(d)]
  {
    DecimalHasNoSeparators(a);
    DecimalHasNoSeparators(b);
    DecimalHasNoSeparators(c);
    DecimalHasNoSeparators(d);
    SegmentsOfJoin([Decimal(a), Decimal(b), Decimal(c), Decimal(d)]);
  }

  /** A dotted quad of decimal numbers maps to their weighted sum; nothing limits the numbers to 0-255. */
  lemma {:induction false} DottedDecimalKey(a: uint32, b: uint32, c: uint32, d: uint32)
    ensures IpToKey(DecimalQuad(a, b, c, d)) == Some((a + 2 * b + 3 * c + 4 * d) % UINT32_LIMIT)
  {
    var ip := DecimalQuad(a, b, c, d);
    SegmentsOfDecimalQuad(a, b, c, d);
    ParseDecimal(a);
    ParseDecimal(b);
    ParseDecimal(c);
    ParseDecimal(d);
    AcceptedKeyIsWeightedSum(ip, a, b, c, d);
  }

  /** The decimal dotted quad `a.b.c.d`. */
  function DecimalQuad(a: nat, b: nat, c: nat, d: nat): string
  {
    Join([Decimal(a), Decimal(b), Decimal(c), Decimal(d)], '.')
  }

  /** Without wrap-around, the key is the plain weighted sum. */
  lemma {:induction false} SmallDottedDecimalKey(a: uint32, b: uint32, c: uint32, d: uint32)
    requires a + 2 * b + 3 * c + 4 * d < UINT32_LIMIT
    ensures IpToKey(DecimalQuad(a, b, c, d)) == Some(a + 2 * b + 3 * c + 4 * d)
  {
    var sum := a + 2 * b + 3 * c + 4 * d;
    assert sum % UINT32_LIMIT == sum;
    DottedDecimalKey(a, b, c, d);
  }

  /** The loopback address maps to 1*127 + 2*0 + 3*0 + 4*1 = 131. */
  lemma {:induction false} LoopbackKey()
    ensures IpToKey("127.0.0.1") == Some(131)
  {
    assert Decimal(127) == "127";
    assert Decimal(0) == "0";
    assert Decimal(1) == "1";
    assert DecimalQuad(127, 0, 0, 1) == "127.0.0.1";
    SmallDottedDecimalKey(127, 0, 0, 1);
  }

  /** Nothing limits a piece to 0-255: `a.0.0.0` maps to `a` for every `u32` value `a`, 300 included. */
  lemma {:induction false} NotRangeChecked(a: uint32)
    ensures IpToKey(DecimalQuad(a, 0, 0, 0)) == Some(a)
  {
    SmallDottedDecimalKey(a, 0, 0, 0);
  }

  /** Equal decimal quads have equal numbers. */
  lemma {:induction false} DecimalQuadInjective(a: nat, b: nat, c: nat, d: nat, e: nat, f: nat, g: nat, h: nat)
    requires DecimalQuad(a, b, c, d) == DecimalQuad(e, f, g, h)
    ensures a == e && b == f && c == g && d == h
  {
    SegmentsOfDecimalQuad(a, b, c, d);
    SegmentsOfDecimalQuad(e, f, g, h);
    var s1 := Segments(DecimalQuad(a, b, c, d));
    var s2 := Segments(DecimalQuad(e, f, g, h));
    assert DigitsValue(s1[0]) == DigitsValue(s2[0]);
    assert DigitsValue(s1[1]) == DigitsValue(s2[1]);
    assert DigitsValue(s1[2]) == DigitsValue(s2[2]);
    assert DigitsValue(s1[3]) == DigitsValue(s2[3]);
  }

  /**
   * The key is not injective: two dotted quads collide exactly when their
   * weighted sums agree modulo 2^32, however different the quads are.
   */
  lemma {:induction false} SameKeyIffSameSum(a: uint32, b: uint32, c: uint32, d: uint32, e: uint32, f: uint32, g: uint32, h: uint32)
    ensures IpToKey(DecimalQuad(a, b, c, d)) == IpToKey(DecimalQuad(e, f, g, h)) <==>
              (a + 2 * b + 3 * c + 4 * d) % UINT32_LIMIT == (e + 2 * f + 3 * g + 4 * h) % UINT32_LIMIT
  {
    DottedDecimalKey(a, b, c, d);
    DottedDecimalKey(e, f, g, h);
  }

  /** Dotted quads with the same weighted sum have the same key. */
  lemma {:induction false} EqualSumsShareKey(a: uint32, b: uint32, c: uint32, d: uint32, e: uint32, f: uint32, g: uint32, h: uint32)
    requires a + 2 * b + 3 * c + 4 * d == e + 2 * f + 3 * g + 4 * h
    ensures IpToKey(DecimalQuad(a, b, c, d)) == IpToKey(DecimalQuad(e, f, g, h))
  {
    assert (a + 2 * b + 3 * c + 4 * d) % UINT32_LIMIT == (e + 2 * f + 3 * g + 4 * h) % UINT32_LIMIT;
    DottedDecimalKey(a, b, c, d);
    DottedDecimalKey(e, f, g, h);
  }

  /** Moving 2 from the first number to 1 on the second keeps the key: 2.0.0.0 and 0.1.0.0 collide. */
  lemma {:induction false} NotInjective(a: uint32, b: uint32, c: uint32, d: uint32)
    requires a + 2 < UINT32_LIMIT && b + 1 < UINT32_LIMIT
    ensures DecimalQuad(a + 2, b, c, d) != DecimalQuad(a, b + 1, c, d)
    ensures IpToKey(DecimalQuad(a + 2, b, c, d)) == IpToKey(DecimalQuad(a, b + 1, c, d))
  {
    assert DecimalQuad(a + 2, b, c, d) != DecimalQuad(a, b + 1, c, d) by {
      if DecimalQuad(a + 2, b, c, d) == DecimalQuad(a, b + 1, c, d) {
        DecimalQuadInjective(a + 2, b, c, d, a, b + 1, c, d);
      }
    }
    EqualSumsShareKey(a + 2, b, c, d, a, b + 1, c, d);
  }
}
