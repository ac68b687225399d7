/** Dotted addresses (cores/w800/IPAddress.cpp:86-125 and 173-183). */
module IPAddress {
  import opened Sequences
  import opened Helpers
  import opened Numerals
  import opened Printers
  import opened Substitution

  // ---------- What a dotted text is ----------

  /** The fields between the dots; a text without dots is one field. */
  function Split(s: string): (fields: seq<string>)
    ensures fields != []
  {
    if s == "" then [""]
    else
      var r := Split(s[..|s| - 1]);
      if s[|s| - 1] == '.' then r + [""] else r[..|r| - 1] + [r[|r| - 1] + [s[|s| - 1]]]
  }

  function Join(fields: seq<string>): string
    requires fields != []
  {
    if |fields| == 1 then fields[0] else Join(fields[..|fields| - 1]) + "." + fields[|fields| - 1]
  }

  lemma JoinDot(r: seq<string>)
    requires r != []
    ensures Join(r + [""]) == Join(r) + "."
  {
    assert (r + [""])[..|r|] == r;
  }

  lemma JoinChar(r: seq<string>, c: char)
    requires r != []
    ensures Join(r[..|r| - 1] + [r[|r| - 1] + [c]]) == Join(r) + [c]
  {
    var a, b := r[..|r| - 1], r[|r| - 1];
    assert (a + [b + [c]])[..|a|] == a;
    if a != [] { Assoc(Join(a) + ".", b, [c]); }
  }

  /** Splitting loses nothing. */
  lemma {:induction false} SplitJoins(s: string)
    ensures Join(Split(s)) == s
    decreases |s|
  {
    if s != "" {
      var t, c := s[..|s| - 1], s[|s| - 1];
      SplitJoins(t);
      if c == '.' { JoinDot(Split(t)); } else { JoinChar(Split(t), c); }
      assert t + [c] == s;
    }
  }

  /** Digits only, possibly none, worth at most 255. */
  predicate IsOctet(field: string) {
    (forall i | 0 <= i < |field| :: IsDigit(field[i])) && Decimal(field) <= 255
  }

  /** Exactly four fields, all of them octets. */
  predicate IsAddress(s: string) {
    |Split(s)| == 4 && forall i | 0 <= i < 4 :: IsOctet(Split(s)[i])
  }

  // ---------- Why fromString may stop early ----------

  /** No way of going on makes an address of this. */
  ghost predicate Hopeless(s: string) {
    |Split(s)| > 4 || exists i :: 0 <= i < |Split(s)| && !IsOctet(Split(s)[i])
  }

  lemma SplitAdd(s: string, c: char)
    ensures var r := Split(s);
      Split(s + [c]) == if c == '.' then r + [""] else r[..|r| - 1] + [r[|r| - 1] + [c]]
  {
    assert (s + [c])[..|s|] == s;
  }

  lemma OctetGrows(field: string, c: char)
    requires IsOctet(field + [c])
    ensures IsOctet(field)
  {
    assert (field + [c])[..|field|] == field;
    assert forall i | 0 <= i < |field| :: (field + [c])[i] == field[i];
  }

  lemma HopelessStays(s: string, c: char)
    requires Hopeless(s)
    ensures Hopeless(s + [c])
  {
    var r, f := Split(s), Split(s + [c]);
    SplitAdd(s, c);
    if |r| <= 4 {
      var i :| 0 <= i < |r| && !IsOctet(r[i]);
      if c != '.' && i == |r| - 1 && IsOctet(f[i]) { OctetGrows(r[i], c); }
      assert !IsOctet(f[i]);
    }
  }

  lemma {:induction false} HopelessForGood(s: string, t: string)
    requires Hopeless(s)
    ensures !IsAddress(s + t)
    decreases |t|
  {
    if t == "" {
      assert s + t == s;
    } else {
      HopelessStays(s, t[0]);
      HopelessForGood(s + [t[0]], t[1..]);
      assert s + [t[0]] + t[1..] == s + t;
    }
  }

  /** The fields are octets as far as the text goes, with `dots` dots and `acc` in the last field. */
  ghost predicate SoFar(s: string, dots: nat, acc: nat) {
    dots < 4 && Good(Split(s), dots, acc)
  }

  /** Behind `dots` dots there is a field that is no octet, or a fifth field. */
  ghost predicate Beyond(s: string, dots: nat) {
    dots < |Split(s)| && (!IsOctet(Split(s)[dots]) || (dots == 3 && |Split(s)| == 5))
  }

  lemma OnDot(s: string, dots: nat, acc: nat)
    requires SoFar(s, dots, acc)
    ensures Split(s + ['.']) == Split(s) + [""] && if dots < 3 then SoFar(s + ['.'], dots + 1, 0) else Beyond(s + ['.'], dots)
  {
    SplitAdd(s, '.');
    assert IsOctet("");
  }

  /** The last field with one more character. */
  lemma OctetOn(field: string, c: char)
    requires IsOctet(field)
    ensures IsOctet(field + [c]) <==> IsDigit(c) && Decimal(field) * 10 + DigitOf(c) <= 255
    ensures IsDigit(c) ==> Decimal(field + [c]) == Decimal(field) * 10 + DigitOf(c)
  {
    var f := field + [c];
    assert f[..|field|] == field && f[|field|] == c;
    assert forall i | 0 <= i < |field| :: f[i] == field[i];
  }

  /** These fields are octets, with `acc` in the last. */
  ghost predicate Good(fields: seq<string>, dots: nat, acc: nat) {
    |fields| == dots + 1 && (forall i | 0 <= i <= dots :: IsOctet(fields[i])) && acc == Decimal(fields[dots])
  }

  lemma LastFieldOn(r: seq<string>, f: seq<string>, c: char, dots: nat, acc: nat)
    requires Good(r, dots, acc) && f == r[..dots] + [r[dots] + [c]]
    ensures if IsDigit(c) && acc * 10 + DigitOf(c) <= 255 then Good(f, dots, acc * 10 + DigitOf(c)) else !IsOctet(f[dots])
  {
    OctetOn(r[dots], c);
    assert f[dots] == r[dots] + [c] && forall i | 0 <= i < dots :: f[i] == r[i];
  }

  lemma OnOther(s: string, c: char, dots: nat, acc: nat)
    requires SoFar(s, dots, acc) && c != '.'
    ensures var r := Split(s); Split(s + [c]) == r[..dots] + [r[dots] + [c]]
    ensures if IsDigit(c) && acc * 10 + DigitOf(c) <= 255 then SoFar(s + [c], dots, acc * 10 + DigitOf(c)) else Beyond(s + [c], dots)
  {
    SplitAdd(s, c);
    LastFieldOn(Split(s), Split(s + [c]), c, dots, acc);
  }

  /** One more character: a digit that fits, a dot with room for it, or the end of all hope. */
  lemma Onwards(s: string, c: char, dots: nat, acc: nat)
    requires SoFar(s, dots, acc)
    ensures IsDigit(c) && acc * 10 + DigitOf(c) <= 255 ==> SoFar(s + [c], dots, acc * 10 + DigitOf(c))
    ensures c == '.' && dots < 3 ==> SoFar(s + [c], dots + 1, 0)
    ensures !(IsDigit(c) && acc * 10 + DigitOf(c) <= 255) && !(c == '.' && dots < 3) ==> Beyond(s + [c], dots)
    ensures |Split(s + [c])| > dots && Split(s + [c])[..dots] == Split(s)[..dots]
    ensures c == '.' ==> Split(s + [c])[dots] == Split(s)[dots]
  {
    if c == '.' { OnDot(s, dots, acc); } else { OnOther(s, c, dots, acc); }
  }

  // ---------- What has been stored when the scan gives up ----------

  /** What follows changes no field but the last, which only grows. */
  lemma {:induction false} SplitGrows(s: string, t: string)
    ensures var r, f := Split(s), Split(s + t); var n := |r| - 1;
      |r| <= |f| && f[..n] == r[..n] && r[n] <= f[n]
    decreases |t|
  {
    if t == "" {
      assert s + t == s;
    } else {
      var u, c := t[..|t| - 1], t[|t| - 1];
      SplitGrows(s, u);
      SplitAdd(s + u, c);
      Assoc(s, u, [c]);
      assert u + [c] == t;
      FieldsGrow(Split(s), Split(s + u), Split(s + t), c);
    }
  }

  lemma FieldsGrow(r: seq<string>, g: seq<string>, f: seq<string>, c: char)
    requires r != [] && |r| <= |g| && g[..|r| - 1] == r[..|r| - 1] && r[|r| - 1] <= g[|r| - 1]
    requires f == if c == '.' then g + [""] else g[..|g| - 1] + [g[|g| - 1] + [c]]
    ensures |r| <= |f| && f[..|r| - 1] == r[..|r| - 1] && r[|r| - 1] <= f[|r| - 1]
  {
    var n := |r| - 1;
    assert f[..n] == g[..n];
    assert f[n] == g[n] || f[n] == g[n] + [c];
  }

  lemma {:induction false} OctetPrefix(f: string, g: string)
    requires f <= g && IsOctet(g)
    ensures IsOctet(f)
    decreases |g|
  {
    if |f| < |g| {
      var n := |g| - 1;
      assert g[..n] + [g[n]] == g;
      OctetGrows(g[..n], g[n]);
      OctetPrefix(f, g[..n]);
    } else {
      assert f == g;
    }
  }

  /** The field is one of the first three, ends with a dot, and is an octet, like those before it. */
  ghost predicate Closed(s: string, k: nat) {
    k < 3 && k + 1 < |Split(s)| && forall j | 0 <= j <= k :: IsOctet(Split(s)[j])
  }

  /** The scan gave up behind this many dots. */
  ghost predicate GaveUp(s: string, dots: nat) {
    && dots <= 3 && Beyond(s, dots) && |Split(s)| <= dots + 2 && (|Split(s)| == dots + 2 ==> dots == 3)
    && forall k | 0 <= k < dots :: IsOctet(Split(s)[k])
  }

  /** Where the scan gives up, exactly the fields before that place are closed in the whole text. */
  lemma ClosedBefore(s: string, t: string, dots: nat)
    requires GaveUp(s, dots)
    ensures forall k: nat :: Closed(s + t, k) <==> k < dots
    ensures dots < |Split(s + t)| && forall k | 0 <= k < dots :: Split(s + t)[k] == Split(s)[k]
  {
    var r, f := Split(s), Split(s + t);
    SplitGrows(s, t);
    forall k | 0 <= k < dots ensures f[k] == r[k] { assert f[..|r| - 1][k] == r[..|r| - 1][k]; }
    if dots < 3 && IsOctet(f[dots]) { OctetPrefix(r[dots], f[dots]); }
  }

  // ---------- Writing and reading ----------

  /** The address as printTo writes it. */
  function Dotted(bytes: seq<byte>): string
    requires |bytes| == 4
  {
    Numeral(bytes[0]) + "." + Numeral(bytes[1]) + "." + Numeral(bytes[2]) + "." + Numeral(bytes[3])
  }

  lemma LastField(r: seq<string>, u: string, c: char)
    requires r != []
    ensures var f := r[..|r| - 1] + [r[|r| - 1] + u];
      f[..|f| - 1] + [f[|f| - 1] + [c]] == r[..|r| - 1] + [r[|r| - 1] + (u + [c])]
  {
    assert r[|r| - 1] + u + [c] == r[|r| - 1] + (u + [c]);
  }

  /** Digits join the last field. */
  lemma {:induction false} SplitDigits(s: string, t: string)
    requires forall i | 0 <= i < |t| :: IsDigit(t[i])
    ensures var r := Split(s); Split(s + t) == r[..|r| - 1] + [r[|r| - 1] + t]
    decreases |t|
  {
    var r := Split(s);
    if t == "" {
      assert s + t == s && r[|r| - 1] + t == r[|r| - 1];
    } else {
      var u, c := t[..|t| - 1], t[|t| - 1];
      SplitDigits(s, u);
      SplitAdd(s + u, c);
      LastField(r, u, c);
      Assoc(s, u, [c]);
      assert u + [c] == t;
    }
  }

  /** One more number behind a dot is one more field. */
  lemma SplitNumber(s: string, n: nat)
    ensures Split(s + "." + Numeral(n)) == Split(s) + [Numeral(n)]
  {
    SplitAdd(s, '.');
    SplitDigits(s + ".", Numeral(n));
    assert "" + Numeral(n) == Numeral(n);
  }

  lemma SplitDotted(bytes: seq<byte>)
    requires |bytes| == 4
    ensures Split(Dotted(bytes)) == [Numeral(bytes[0]), Numeral(bytes[1]), Numeral(bytes[2]), Numeral(bytes[3])]
  {
    SplitDigits("", Numeral(bytes[0]));
    assert "" + Numeral(bytes[0]) == Numeral(bytes[0]);
    SplitNumber(Numeral(bytes[0]), bytes[1]);
    SplitNumber(Numeral(bytes[0]) + "." + Numeral(bytes[1]), bytes[2]);
    SplitNumber(Numeral(bytes[0]) + "." + Numeral(bytes[1]) + "." + Numeral(bytes[2]), bytes[3]);
  }

  /** The bytes of a dotted text. */
  function Octets(s: string): (bytes: seq<byte>)
    requires IsAddress(s)
    ensures |bytes| == 4 && forall i | 0 <= i < 4 :: bytes[i] == Decimal(Split(s)[i])
  {
    var f := Split(s);
    assert forall i | 0 <= i < 4 :: IsOctet(f[i]);
    [Decimal(f[0]), Decimal(f[1]), Decimal(f[2]), Decimal(f[3])]
  }

  /** What printTo writes is an address, and reads back as the same bytes. */
  lemma DottedReadsBack(bytes: seq<byte>)
    requires |bytes| == 4
    ensures IsAddress(Dotted(bytes)) && Octets(Dotted(bytes)) == bytes
  {
    SplitDotted(bytes);
    forall i | 0 <= i < 4 ensures IsOctet(Split(Dotted(bytes))[i]) && Decimal(Split(Dotted(bytes))[i]) == bytes[i] {
      NumeralMeans(bytes[i]);
    }
  }

  lemma NothingRead()
    ensures SoFar("", 0, 0) && |Split("")| == 1
  {}

  lemma BeyondIsHopeless(s: string, dots: nat)
    requires GaveUp(s, dots)
    ensures Hopeless(s)
  {}

  /** At the end of the text, it is an address exactly when three dots have come. */
  lemma AllRead(s: string, dots: nat, acc: nat)
    requires SoFar(s, dots, acc)
    ensures (IsAddress(s) <==> dots == 3) && (dots == 3 ==> Octets(s)[3] == acc) && dots < |Split(s)|
    ensures forall k: nat :: Closed(s, k) <==> k < dots
  {}

  /** An address is four numerals of at most 255, possibly empty, with dots between them. */
  lemma AddressIs(a: string, b: string, c: string, d: string)
    requires IsOctet(a) && IsOctet(b) && IsOctet(c) && IsOctet(d)
    ensures var s := a + "." + b + "." + c + "." + d;
      IsAddress(s) && Octets(s) == [Decimal(a), Decimal(b), Decimal(c), Decimal(d)]
  {
    hide Split, Decimal;
    FourFields(a, b, c, d);
    OctetsAre(a + "." + b + "." + c + "." + d, a, b, c, d);
  }

  lemma FourFields(a: string, b: string, c: string, d: string)
    requires IsOctet(a) && IsOctet(b) && IsOctet(c) && IsOctet(d)
    ensures Split(a + "." + b + "." + c + "." + d) == [a, b, c, d]
  {
    OneField(a);
    SplitField(a, b);
    SplitField(a + "." + b, c);
    SplitField(a + "." + b + "." + c, d);
  }

  lemma OneField(a: string)
    requires IsOctet(a)
    ensures Split(a) == [a]
  {
    SplitDigits("", a);
    assert "" + a == a;
  }

  lemma OctetsAre(s: string, a: string, b: string, c: string, d: string)
    requires Split(s) == [a, b, c, d] && IsOctet(a) && IsOctet(b) && IsOctet(c) && IsOctet(d)
    ensures IsAddress(s) && Octets(s) == [Decimal(a), Decimal(b), Decimal(c), Decimal(d)]
  {
    var f := Split(s);
    assert f[0] == a && f[1] == b && f[2] == c && f[3] == d;
  }

  lemma SplitField(s: string, field: string)
    requires IsOctet(field)
    ensures Split(s + "." + field) == Split(s) + [field]
  {
    SplitAdd(s, '.');
    SplitDigits(s + ".", field);
    assert "" + field == field;
  }

  /** And no other text is one. */
  lemma AddressParts(s: string) returns (a: string, b: string, c: string, d: string)
    requires IsAddress(s)
    ensures IsOctet(a) && IsOctet(b) && IsOctet(c) && IsOctet(d) && s == a + "." + b + "." + c + "." + d
  {
    var f := Split(s);
    a, b, c, d := f[0], f[1], f[2], f[3];
    SplitJoins(s);
    JoinOn(f);
    JoinOn(f[..3]);
    JoinOn(f[..3][..2]);
    assert f[..3][..2][..1][0] == a && f[..3][..2][1] == b && f[..3][2] == c;
  }

  lemma JoinOn(f: seq<string>)
    requires |f| > 1
    ensures var n := |f| - 1; Join(f) == Join(f[..n]) + "." + f[n]
  {}

  class IPAddress {
    const bytes: array<byte>

    ghost predicate Valid() {
      bytes.Length == 4
    }

    constructor ()
      ensures Valid() && fresh(bytes) && bytes[..] == [0, 0, 0, 0]
    {
      bytes := new byte[4](_ => 0);
    }

    /** The fields before the last dot are in place. */
    ghost predicate Stored(s: string, dots: nat)
      requires Valid() && dots <= 3
      reads bytes
    {
      dots < |Split(s)| && forall k | 0 <= k < dots :: IsOctet(Split(s)[k]) && bytes[k] == Decimal(Split(s)[k])
    }

    /** fromString: of a text that turns out not to be an address, the fields that a dot has closed before that
        are stored. */
    method FromString(address: string) returns (ok: bool)
      requires Valid() && NulFree(address)
      modifies bytes
      ensures ok <==> IsAddress(address)
      ensures ok ==> bytes[..] == Octets(address)
      ensures !ok ==> forall k: nat | k < 4 ::
        bytes[k] == if Closed(address, k) then Decimal(Split(address)[k]) else old(bytes[k])
    {
      hide Split, Decimal, Closed, Hopeless, GaveUp, Good, IsOctet;
      var acc: nat, dots: nat := 0, 0;
      var i := 0;
      ghost var s := "";
      NothingRead();
      while i < |address|
        invariant i <= |address| && s == address[..i] && SoFar(s, dots, acc) && Stored(s, dots)
        invariant forall k | dots <= k < 4 :: bytes[k] == old(bytes[k])
      {
        ok, acc, dots := Take(address[i], acc, dots, s);
        s := s + [address[i]];
        i := i + 1;
        if !ok {
          assert s + address[i..] == address;
          BeyondIsHopeless(s, dots);
          HopelessForGood(s, address[i..]);
          ClosedBefore(s, address[i..], dots);
          return;
        }
      }
      assert s == address;
      AllRead(s, dots, acc);
      if dots != 3 { return false; }
      bytes[3] := acc;
      ok := true;
    }

    /** One round: the next character is a digit, a dot, or an error. */
    method Take(c: char, acc: nat, dots: nat, ghost s: string) returns (ok: bool, newAcc: nat, newDots: nat)
      requires Valid() && SoFar(s, dots, acc) && Stored(s, dots)
      modifies bytes
      ensures if ok then SoFar(s + [c], newDots, newAcc) && Stored(s + [c], newDots)
              else newDots == dots && GaveUp(s + [c], dots) && Stored(s + [c], dots)
      ensures dots <= newDots && forall k | newDots <= k < 4 :: bytes[k] == old(bytes[k])
    {
      ok, newAcc, newDots := true, acc, dots;
      Onwards(s, c, dots, acc);
      assert forall k | 0 <= k < dots :: Split(s + [c])[k] == Split(s + [c])[..dots][k] == Split(s)[k];
      if IsDigit(c) {
        newAcc := acc * 10 + DigitOf(c);
        if newAcc > 255 { return false, newAcc, dots; }
      } else if c == '.' {
        if dots == 3 { return false, acc, dots; }
        bytes[dots] := acc;
        newDots := dots + 1;
        newAcc := 0;
      } else {
        return false, acc, dots;
      }
    }

    /** printTo. */
    method PrintTo() returns (text: string)
      requires Valid()
      ensures text == Dotted(bytes[..])
    {
      text := "";
      var i := 0;
      while i < 3
        invariant 0 <= i <= 3 && text == Leading(bytes[..], i)
      {
        var n := PrintNumber(bytes[i], 10);
        text := text + n;
        text := text + ".";
        i := i + 1;
      }
      var n := PrintNumber(bytes[3], 10);
      text := text + n;
      LeadingAll(bytes[..], i);
    }
  }

  /** The first `n` numbers, each with its dot. */
  function Leading(bytes: seq<byte>, n: nat): string
    requires n <= |bytes|
  {
    if n == 0 then "" else Leading(bytes, n - 1) + Numeral(bytes[n - 1]) + "."
  }

  lemma LeadingAll(bytes: seq<byte>, n: nat)
    requires |bytes| == 4 && n == 3
    ensures Leading(bytes, n) + Numeral(bytes[3]) == Dotted(bytes)
  {
    assert Leading(bytes, n - 2) == Numeral(bytes[0]) + "." by { assert Leading(bytes, n - 3) == ""; }
    assert Leading(bytes, n - 1) == Numeral(bytes[0]) + "." + Numeral(bytes[1]) + ".";
    assert Leading(bytes, n) == Numeral(bytes[0]) + "." + Numeral(bytes[1]) + "." + Numeral(bytes[2]) + ".";
  }
}
