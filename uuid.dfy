/** Identifier formats of `src/Utils/uuid.ts`: the version-4 UUID template filled with random
    hexadecimal digits, and the `track_` / `campaign_` identifiers built from the clock and a
    random base-36 string. The random draws and the clock reading are inputs. */
module Uuid {

  /** One `Math.random() * 16 | 0` draw. */
  type Nibble = v: int | 0 <= v < 16

  /** `n` copies of `x`. */
  function Xs(n: nat): (r: string)
    ensures |r| == n && forall k :: 0 <= k < n ==> r[k] == 'x'
  {
    if n == 0 then [] else Xs(n - 1) + "x"
  }

  /** The template the callback fills, `xxxxxxxx-xxxx-4xxx-yxxx-xxxxxxxxxxxx`: each `x` and
      `y` is replaced, everything else kept. */
  const Template: string := Xs(8) + "-" + Xs(4) + "-4" + Xs(3) + "-y" + Xs(3) + "-" + Xs(12)

  /** The number of random draws one UUID takes. */
  const DrawCount: nat := Slots(Template)

  predicate IsLowerHex(c: char) {
    ('0' <= c <= '9') || ('a' <= c <= 'f')
  }

  /** `v.toString(16)` for a single digit. */
  function HexDigit(v: Nibble): (c: char)
    ensures IsLowerHex(c)
  {
    if v < 10 then ('0' as int + v) as char else ('a' as int + v - 10) as char
  }

  /** The value of a lower-case hexadecimal digit. */
  function HexValue(c: char): (v: Nibble)
    requires IsLowerHex(c)
    ensures HexDigit(v) == c
  {
    if c <= '9' then c as int - '0' as int else c as int - 'a' as int + 10
  }

  lemma HexValueOfDigit(v: Nibble)
    ensures HexValue(HexDigit(v)) == v
  {
  }

  /** `r & 0x3 | 0x8`: the RFC 9562 variant bits `10` above the draw's two low bits. */
  function VariantNibble(r: Nibble): (v: Nibble)
    ensures 8 <= v <= 11 && v % 4 == r % 4
  {
    VariantBits(r);
    (((r as bv8) & 0x3) | 0x8) as int
  }

  lemma VariantBits(r: Nibble)
    ensures (((r as bv8) & 0x3) | 0x8) as int == 8 + r % 4
  {
    var b := r as bv8;
    assert b & 0x3 == (r % 4) as bv8;
  }

  /** The positions of a template the callback replaces. */
  predicate IsSlot(c: char) {
    c == 'x' || c == 'y'
  }

  /** How many draws filling `t` takes. */
  function Slots(t: string): nat {
    if t == [] then 0 else (if IsSlot(t[0]) then 1 else 0) + Slots(t[1..])
  }

  /** What a filled template looks like: its length, a lower-case hex digit at every `x`, one
      of `8`, `9`, `a`, `b` at every `y`, and every other character kept. */
  predicate FitsTemplate(t: string, u: string) {
    && |u| == |t|
    && forall i :: 0 <= i < |t| ==>
         && (t[i] == 'x' ==> IsLowerHex(u[i]))
         && (t[i] == 'y' ==> u[i] in "89ab")
         && (!IsSlot(t[i]) ==> u[i] == t[i])
  }

  /** `t.replace(/[xy]/g, callback)`: the draws are used one per slot, left to right; an `x`
      becomes the draw, a `y` the draw with the variant bits. */
  function Fill(t: string, draws: seq<Nibble>): (u: string)
    requires |draws| == Slots(t)
    ensures FitsTemplate(t, u)
  {
    if t == [] then []
    else if t[0] == 'x' then [HexDigit(draws[0])] + Fill(t[1..], draws[1..])
    else if t[0] == 'y' then [HexDigit(VariantNibble(draws[0]))] + Fill(t[1..], draws[1..])
    else [t[0]] + Fill(t[1..], draws)
  }

  /** What the filled text still tells about the draws: all of an `x` draw, and the two low
      bits of a `y` draw. */
  function Visible(t: string, draws: seq<Nibble>): (d: seq<Nibble>)
    requires |draws| == Slots(t)
    ensures |d| == |draws|
  {
    if t == [] then []
    else if t[0] == 'x' then [draws[0]] + Visible(t[1..], draws[1..])
    else if t[0] == 'y' then [draws[0] % 4] + Visible(t[1..], draws[1..])
    else Visible(t[1..], draws)
  }

  /** Reads the draws back from a filled template (a `y` gives its two low bits). */
  function Unfill(t: string, u: string): (d: seq<Nibble>)
    requires FitsTemplate(t, u)
    ensures |d| == Slots(t)
  {
    if t == [] then []
    else
      assert FitsTemplate(t[1..], u[1..]) by {
        forall i | 0 <= i < |t[1..]|
          ensures t[1..][i] == t[i + 1] && u[1..][i] == u[i + 1]
        {
        }
      }
      if t[0] == 'x' then [HexValue(u[0])] + Unfill(t[1..], u[1..])
      else if t[0] == 'y' then [HexValue(u[0]) - 8] + Unfill(t[1..], u[1..])
      else Unfill(t[1..], u[1..])
  }

  /** Reading back a filled template gives exactly the visible part of the draws. */
  lemma {:induction false} UnfillFill(t: string, draws: seq<Nibble>)
    requires |draws| == Slots(t)
    ensures Unfill(t, Fill(t, draws)) == Visible(t, draws)
  {
    if t != [] {
      var u := Fill(t, draws);
      if IsSlot(t[0]) {
        UnfillFill(t[1..], draws[1..]);
        assert u[1..] == Fill(t[1..], draws[1..]);
      } else {
        UnfillFill(t[1..], draws);
        assert u[1..] == Fill(t[1..], draws);
      }
    }
  }

  /** Filling depends on the draws only through their visible part. */
  lemma {:induction false} FillOfVisible(t: string, draws: seq<Nibble>)
    requires |draws| == Slots(t)
    ensures Fill(t, Visible(t, draws)) == Fill(t, draws)
  {
    if t != [] {
      if IsSlot(t[0]) {
        FillOfVisible(t[1..], draws[1..]);
        assert Visible(t, draws)[1..] == Visible(t[1..], draws[1..]);
        if t[0] == 'y' {
          assert VariantNibble(draws[0] % 4) == VariantNibble(draws[0]);
        }
      } else {
        FillOfVisible(t[1..], draws);
      }
    }
  }

  /** Two sets of draws give the same text exactly when their visible parts agree. */
  lemma FillSameIff(t: string, d1: seq<Nibble>, d2: seq<Nibble>)
    requires |d1| == Slots(t) && |d2| == Slots(t)
    ensures Fill(t, d1) == Fill(t, d2) <==> Visible(t, d1) == Visible(t, d2)
  {
    UnfillFill(t, d1);
    UnfillFill(t, d2);
    FillOfVisible(t, d1);
    FillOfVisible(t, d2);
  }

  lemma {:induction false} SlotsConcat(a: string, b: string)
    ensures Slots(a + b) == Slots(a) + Slots(b)
  {
    if a != [] {
      assert (a + b)[1..] == a[1..] + b;
      SlotsConcat(a[1..], b);
    } else {
      assert a + b == b;
    }
  }

  lemma {:induction false} SlotsOfXs(n: nat)
    ensures Slots(Xs(n)) == n
  {
    if n > 0 {
      SlotsConcat(Xs(n - 1), "x");
      SlotsOfXs(n - 1);
    }
  }

  /** A UUID takes 31 draws: 32 hexadecimal digits less the fixed version digit. */
  lemma TemplateSlots()
    ensures DrawCount == 31
  {
    SlotsOfXs(8); SlotsOfXs(4); SlotsOfXs(3); SlotsOfXs(12);
    assert Slots("-") == 0 && Slots("-4") == 0 && Slots("-y") == 1;
    SlotsConcat(Xs(8), "-");
    SlotsConcat(Xs(8) + "-", Xs(4));
    SlotsConcat(Xs(8) + "-" + Xs(4), "-4");
    SlotsConcat(Xs(8) + "-" + Xs(4) + "-4", Xs(3));
    SlotsConcat(Xs(8) + "-" + Xs(4) + "-4" + Xs(3), "-y");
    SlotsConcat(Xs(8) + "-" + Xs(4) + "-4" + Xs(3) + "-y", Xs(3));
    SlotsConcat(Xs(8) + "-" + Xs(4) + "-4" + Xs(3) + "-y" + Xs(3), "-");
    SlotsConcat(Xs(8) + "-" + Xs(4) + "-4" + Xs(3) + "-y" + Xs(3) + "-", Xs(12));
  }

  /** `generateUUID()` for the given draws. */
  function GenerateUuid(draws: seq<Nibble>): (u: string)
    requires |draws| == DrawCount
    ensures FitsTemplate(Template, u)
  {
    Fill(Template, draws)
  }

  /** The layout of section 5.4 of RFC 9562: 36 characters, dashes at 8, 13, 18 and 23,
      version digit `4` at 14, variant digit `8`, `9`, `a` or `b` at 19, and lower-case
      hexadecimal digits everywhere else. */
  predicate IsUuidV4(u: string) {
    && |u| == 36
    && u[8] == '-' && u[13] == '-' && u[18] == '-' && u[23] == '-'
    && u[14] == '4'
    && u[19] in "89ab"
    && forall i :: 0 <= i < 36 && i !in {8, 13, 14, 18, 19, 23} ==> IsLowerHex(u[i])
  }

  /** Every filled template is a version-4 UUID. */
  lemma GenerateUuidLayout(draws: seq<Nibble>)
    requires |draws| == DrawCount
    ensures IsUuidV4(GenerateUuid(draws))
  {
    var u := GenerateUuid(draws);
    TemplateFixed();
    TemplateSlotPositions();
    forall i | 0 <= i < 36 && i !in {8, 13, 14, 18, 19, 23}
      ensures IsLowerHex(u[i])
    {
      assert Template[i] == 'x';
    }
  }

  /** The template spelled out. */
  lemma TemplateText()
    ensures Template == "xxxxxxxx-xxxx-4xxx-yxxx-xxxxxxxxxxxx"
  {
    TemplateFixed();
    TemplateSlotPositions();
  }

  /** The template's fixed characters and its `y`. */
  lemma TemplateFixed()
    ensures |Template| == 36
    ensures Template[8] == '-' && Template[13] == '-' && Template[18] == '-' && Template[23] == '-'
    ensures Template[14] == '4' && Template[19] == 'y'
  {
  }

  /** Everywhere else the template has an `x`. */
  lemma TemplateSlotPositions()
    ensures forall i :: 0 <= i < 36 && i !in {8, 13, 14, 18, 19, 23} ==> Template[i] == 'x'
  {
    var t := Template;
    forall i | 0 <= i < 36 && i !in {8, 13, 14, 18, 19, 23}
      ensures t[i] == 'x'
    {
      if i < 8 { assert t[i] == Xs(8)[i]; }
      else if i < 13 { assert t[i] == Xs(4)[i - 9]; }
      else if i < 18 { assert t[i] == Xs(3)[i - 15]; }
      else if i < 23 { assert t[i] == Xs(3)[i - 20]; }
      else { assert t[i] == Xs(12)[i - 24]; }
    }
  }

  /** Two UUIDs are equal exactly when the draws agree, except that of the `y` draw only its
      two low bits count. */
  lemma GenerateUuidSameIff(d1: seq<Nibble>, d2: seq<Nibble>)
    requires |d1| == DrawCount && |d2| == DrawCount
    ensures GenerateUuid(d1) == GenerateUuid(d2) <==> Visible(Template, d1) == Visible(Template, d2)
  {
    FillSameIff(Template, d1, d2);
  }

  /** Decimal digits of a natural number, as `${n}` prints it. */
  function Decimal(n: nat): (r: string)
    ensures r != [] && forall k :: 0 <= k < |r| ==> '0' <= r[k] <= '9'
  {
    if n < 10 then [('0' as int + n) as char]
    else Decimal(n / 10) + [('0' as int + n % 10) as char]
  }

  /** The number a string of decimal digits denotes. */
  function DecimalValue(r: string): nat
    requires forall k :: 0 <= k < |r| ==> '0' <= r[k] <= '9'
  {
    if r == [] then 0
    else 10 * DecimalValue(r[..|r| - 1]) + (r[|r| - 1] as int - '0' as int)
  }

  lemma {:induction false} DecimalRoundTrip(n: nat)
    ensures DecimalValue(Decimal(n)) == n
  {
    if n >= 10 {
      var r := Decimal(n);
      assert r[..|r| - 1] == Decimal(n / 10);
      DecimalRoundTrip(n / 10);
    }
  }

  /** `s.substr(start, length)` for non-negative arguments. */
  function Substr(s: string, start: nat, length: nat): (r: string)
    ensures |r| <= length
  {
    if start >= |s| then [] else if start + length >= |s| then s[start..] else s[start..start + length]
  }

  /** `${prefix}${Date.now()}_${Math.random().toString(36).substr(2, 9)}`, with the clock
      reading and the base-36 text of the random number as inputs. */
  function PrefixedId(prefix: string, now: nat, random36: string): string {
    prefix + Decimal(now) + "_" + Substr(random36, 2, 9)
  }

  /** `generateTrackingId()`. */
  function GenerateTrackingId(now: nat, random36: string): string {
    PrefixedId("track_", now, random36)
  }

  /** `generateCampaignId()`. */
  function GenerateCampaignId(now: nat, random36: string): string {
    PrefixedId("campaign_", now, random36)
  }

  /** A prefixed identifier splits back into its prefix, the clock reading, and at most nine
      random characters, because the decimal digits cannot contain the `_` that follows them. */
  lemma PrefixedIdParts(prefix: string, now: nat, random36: string)
    ensures var id := PrefixedId(prefix, now, random36);
      && prefix <= id
      && var rest := id[|prefix|..];
      && var digits := TakeDigits(rest);
      && digits != []
      && DecimalValue(digits) == now
      && "_" <= rest[|digits|..]
      && |rest| <= |digits| + 10
  {
    var d := Decimal(now);
    var id := PrefixedId(prefix, now, random36);
    var tail := "_" + Substr(random36, 2, 9);
    assert id == prefix + (d + tail);
    assert id[|prefix|..] == d + tail;
    TakeDigitsConcat(d, tail);
    DecimalRoundTrip(now);
  }

  /** The longest prefix made of decimal digits. */
  function TakeDigits(s: string): (r: string)
    ensures r <= s
    ensures forall k :: 0 <= k < |r| ==> '0' <= r[k] <= '9'
  {
    if s == [] || !('0' <= s[0] <= '9') then [] else [s[0]] + TakeDigits(s[1..])
  }

  lemma {:induction false} TakeDigitsConcat(d: string, t: string)
    requires forall k :: 0 <= k < |d| ==> '0' <= d[k] <= '9'
    requires t != [] && !('0' <= t[0] <= '9')
    ensures TakeDigits(d + t) == d
  {
    if d != [] {
      assert (d + t)[1..] == d[1..] + t;
      TakeDigitsConcat(d[1..], t);
    }
  }

  /** The tracking id starts with `track_`, the campaign id with `campaign_`. */
  lemma IdPrefixes(now: nat, random36: string)
    ensures "track_" <= GenerateTrackingId(now, random36)
    ensures "campaign_" <= GenerateCampaignId(now, random36)
  {
    PrefixedIdParts("track_", now, random36);
    PrefixedIdParts("campaign_", now, random36);
  }
}
