/**
 * `formatGiftUpdateMessage`: the HTML body of the operator notification. The
 * clock reading of the closing line is a parameter, already rendered as
 * `15:04:05`.
 */
module Format {
  import opened Gifts

  /** Decimal digits of a natural number, most significant first (Go's `%d`). */
  function NatDecimal(n: nat): (s: string)
    ensures |s| >= 1
    ensures forall k :: 0 <= k < |s| ==> '0' <= s[k] <= '9'
    ensures n >= 10 ==> s[0] != '0'
    decreases n
  {
    if n < 10 then [('0' as int + n) as char]
    else NatDecimal(n / 10) + [('0' as int + n % 10) as char]
  }

  /** The number a string of decimal digits denotes. */
  function DigitsValue(s: string): int
    decreases |s|
  {
    if s == [] then 0
    else DigitsValue(s[..|s| - 1]) * 10 + (s[|s| - 1] as int - '0' as int)
  }

  /** Reading the digits back gives the number: the rendering loses nothing. */
  lemma {:induction false} NatDecimalRoundTrip(n: nat)
    ensures DigitsValue(NatDecimal(n)) == n
    decreases n
  {
    if n >= 10 {
      NatDecimalRoundTrip(n / 10);
      var s := NatDecimal(n);
      assert s[..|s| - 1] == NatDecimal(n / 10);
    }
  }

  /** Go's `%d` of a signed integer: a minus sign for negatives, then the digits. */
  function Decimal(x: int): (s: string)
    ensures |s| >= 1
    ensures s[0] == '-' <==> x < 0
  {
    if x < 0 then "-" + NatDecimal(-x) else NatDecimal(x)
  }

  /** The integer a string written by `%d` denotes: an optional minus sign, then digits. */
  function SignedValue(s: string): int {
    if s != [] && s[0] == '-' then -DigitsValue(s[1..]) else DigitsValue(s)
  }

  /** Reading a signed rendering back gives the integer, negative values included. */
  lemma DecimalRoundTrip(x: int)
    ensures SignedValue(Decimal(x)) == x
  {
    if x < 0 {
      NatDecimalRoundTrip(-x);
      assert Decimal(x)[1..] == NatDecimal(-x);
    } else {
      NatDecimalRoundTrip(x);
    }
  }

  /** The pieces of a text, written one after another. */
  function Concat(parts: seq<string>): string
    decreases |parts|
  {
    if parts == [] then "" else parts[0] + Concat(parts[1..])
  }

  const AvailableHeader: string := "\U{2705} <b>Available Limited Gifts:</b>\n"
  const Separator: string := "\n\n"

  /** The closing line with the time of the update. */
  function Footer(timestamp: string): string {
    Concat(["\U{23F0} <i>Updated at: ", timestamp, "</i>"])
  }

  /** The pieces of the three-line block describing one gift. */
  function BlockParts(g: Item): seq<string> {
    ["\U{1F381} ", "Gift ", Decimal(g.id as int),
     "\n\U{2B50} ", "Stars: ", Decimal(g.stars as int),
     "\n\U{1F4E6} ", "Available: ", Decimal(g.remains as int), "/", Decimal(g.total as int)]
  }

  function Block(g: Item): string {
    Concat(BlockParts(g))
  }

  /**
   * The gifts that still have stock, in catalogue order; sold-out gifts
   * (`remains == 0`) are dropped.
   */
  function Available(gifts: seq<Item>): (av: seq<Item>)
    ensures |av| <= |gifts|
    decreases |gifts|
  {
    if gifts == [] then []
    else
      var last := gifts[|gifts| - 1];
      Available(gifts[..|gifts| - 1]) + (if last.remains == 0 then [] else [last])
  }

  /** Every kept gift is a catalogue gift with stock left. */
  lemma {:induction false} AvailableSound(gifts: seq<Item>, k: nat)
    requires k < |Available(gifts)|
    ensures Available(gifts)[k] in gifts && Available(gifts)[k].remains != 0
    decreases |gifts|
  {
    var init := gifts[..|gifts| - 1];
    if k < |Available(init)| {
      AvailableSound(init, k);
    }
  }

  /** Every catalogue gift with stock left is kept. */
  lemma {:induction false} AvailableComplete(gifts: seq<Item>, i: nat)
    requires i < |gifts| && gifts[i].remains != 0
    ensures gifts[i] in Available(gifts)
    decreases |gifts|
  {
    var init := gifts[..|gifts| - 1];
    if i < |init| {
      AvailableComplete(init, i);
      assert init[i] == gifts[i];
    }
  }

  /** Nothing is kept exactly when every gift is sold out. */
  lemma AvailableEmpty(gifts: seq<Item>)
    ensures Available(gifts) == [] <==> forall i :: 0 <= i < |gifts| ==> gifts[i].remains == 0
  {
    if Available(gifts) != [] {
      AvailableSound(gifts, 0);
    }
    if exists i :: 0 <= i < |gifts| && gifts[i].remains != 0 {
      var i :| 0 <= i < |gifts| && gifts[i].remains != 0;
      AvailableComplete(gifts, i);
    }
  }

  /** Filtering a concatenation filters each part: the kept gifts keep catalogue order. */
  lemma {:induction false} AvailableConcat(a: seq<Item>, b: seq<Item>)
    ensures Available(a + b) == Available(a) + Available(b)
    decreases |b|
  {
    if b == [] {
      assert a + b == a;
    } else {
      var init := b[..|b| - 1];
      assert (a + b)[..|a + b| - 1] == a + init;
      AvailableConcat(a, init);
    }
  }

  /** One block and the blank line after it. */
  function Entry(g: Item): string {
    Block(g) + Separator
  }

  /** The blocks of the given gifts, each followed by a blank line. */
  function Join(gifts: seq<Item>): string
    decreases |gifts|
  {
    if gifts == [] then "" else Join(gifts[..|gifts| - 1]) + Entry(gifts[|gifts| - 1])
  }

  predicate OccursAt(s: string, sub: string, p: nat) {
    p + |sub| <= |s| && s[p..p + |sub|] == sub
  }

  predicate StartsWith(s: string, prefix: string) {
    |prefix| <= |s| && s[..|prefix|] == prefix
  }

  predicate EndsWith(s: string, suffix: string) {
    |suffix| <= |s| && s[|s| - |suffix|..] == suffix
  }

  ghost predicate Contains(s: string, sub: string) {
    exists p: nat :: OccursAt(s, sub, p)
  }

  lemma Associative(a: string, b: string, c: string)
    ensures a + b + c == a + (b + c)
  {
  }

  /** Writing two lists of pieces is writing their concatenation. */
  lemma {:induction false} ConcatAppend(a: seq<string>, b: seq<string>)
    ensures Concat(a + b) == Concat(a) + Concat(b)
    decreases |a|
  {
    if a != [] {
      assert (a + b)[1..] == a[1..] + b;
      ConcatAppend(a[1..], b);
      Associative(a[0], Concat(a[1..]), Concat(b));
    } else {
      assert a + b == b;
    }
  }

  /** Writing two or four pieces. */
  lemma ConcatPieces(parts: seq<string>)
    requires |parts| == 2 || |parts| == 4
    ensures |parts| == 2 ==> Concat(parts) == parts[0] + parts[1]
    ensures |parts| == 4 ==> Concat(parts) == parts[0] + parts[1] + parts[2] + parts[3]
  {
    var n := |parts|;
    assert Concat(parts[n - 1..]) == parts[n - 1] by {
      assert parts[n - 1..][1..] == [];
    }
    assert Concat(parts[n - 2..]) == parts[n - 2] + parts[n - 1] by {
      assert parts[n - 2..][1..] == parts[n - 1..];
    }
    if n == 4 {
      assert parts[1..][1..] == parts[2..];
      assert Concat(parts[1..]) == parts[1] + (parts[2] + parts[3]);
      Associative(parts[1], parts[2], parts[3]);
      Associative(parts[0], parts[1] + parts[2], parts[3]);
      Associative(parts[0], parts[1], parts[2]);
    } else {
      assert parts[1..] == parts[n - 1..];
    }
  }

  /** The text of a run of consecutive pieces occurs in the whole text. */
  lemma ConcatOccurs(parts: seq<string>, i: nat, j: nat)
    requires i <= j <= |parts|
    ensures OccursAt(Concat(parts), Concat(parts[i..j]), |Concat(parts[..i])|)
  {
    assert parts == parts[..i] + parts[i..j] + parts[j..];
    ConcatAppend(parts[..i] + parts[i..j], parts[j..]);
    ConcatAppend(parts[..i], parts[i..j]);
    var mid := Concat(parts[i..j]);
    assert OccursAt(mid, mid, 0);
    OccursBefore(mid, Concat(parts[j..]), mid, 0);
    OccursAfter(Concat(parts[..i]), mid + Concat(parts[j..]), mid, 0);
    Associative(Concat(parts[..i]), mid, Concat(parts[j..]));
  }

  /** An occurrence inside an occurrence is an occurrence. */
  lemma OccursWithin(s: string, mid: string, sub: string, p: nat, q: nat)
    requires OccursAt(s, mid, p) && OccursAt(mid, sub, q)
    ensures OccursAt(s, sub, p + q)
  {
    forall k | p + q <= k < p + q + |sub|
      ensures s[k] == sub[k - p - q]
    {
      assert s[k] == s[p..p + |mid|][k - p];
      assert mid[k - p] == mid[q..q + |sub|][k - p - q];
    }
    assert s[p + q..p + q + |sub|] == sub;
  }

  /** An occurrence stays where it is when text is appended. */
  lemma OccursBefore(s: string, b: string, sub: string, p: nat)
    requires OccursAt(s, sub, p)
    ensures OccursAt(s + b, sub, p)
  {
    assert (s + b)[p..p + |sub|] == s[p..p + |sub|];
  }

  /** An occurrence moves right by the length of text prepended. */
  lemma OccursAfter(a: string, s: string, sub: string, p: nat)
    requires OccursAt(s, sub, p)
    ensures OccursAt(a + s, sub, |a| + p)
  {
    assert (a + s)[|a| + p..|a| + p + |sub|] == s[p..p + |sub|];
  }

  /**
   * The notification body: nothing when no gift has stock left, otherwise the
   * header, one block per gift in stock, and the timestamp line at the end.
   */
  function MessageOf(gifts: seq<Item>, timestamp: string): string {
    var av := Available(gifts);
    if av == [] then "" else AvailableHeader + (Join(av) + Footer(timestamp))
  }

  /** The body is empty exactly when every gift is sold out. */
  lemma MessageEmpty(gifts: seq<Item>, timestamp: string)
    ensures MessageOf(gifts, timestamp) == "" <==> forall i :: 0 <= i < |gifts| ==> gifts[i].remains == 0
  {
    AvailableEmpty(gifts);
  }

  /** A non-empty body starts with the header and ends with the timestamp line. */
  lemma MessageFrame(gifts: seq<Item>, timestamp: string)
    ensures var m := MessageOf(gifts, timestamp);
            m != "" ==> StartsWith(m, AvailableHeader) && EndsWith(m, Footer(timestamp))
  {
    var m := MessageOf(gifts, timestamp);
    if m != "" {
      assert m[..|AvailableHeader|] == AvailableHeader;
      assert m[|m| - |Footer(timestamp)|..] == Footer(timestamp);
    }
  }

  /** The block of every gift handed to `Join` appears in its output. */
  lemma {:induction false} JoinContains(gifts: seq<Item>, k: nat)
    requires k < |gifts|
    ensures Contains(Join(gifts), Block(gifts[k]))
    decreases |gifts|
  {
    var init := gifts[..|gifts| - 1];
    var last := gifts[|gifts| - 1];
    if k < |init| {
      JoinContains(init, k);
      var p: nat :| OccursAt(Join(init), Block(init[k]), p);
      assert init[k] == gifts[k];
      OccursBefore(Join(init), Entry(last), Block(gifts[k]), p);
    } else {
      assert OccursAt(Block(last), Block(last), 0);
      OccursBefore(Block(last), Separator, Block(last), 0);
      OccursAfter(Join(init), Entry(last), Block(last), 0);
    }
  }

  /** The block of every gift with stock left appears in the notification. */
  lemma MessageListsInStock(gifts: seq<Item>, timestamp: string, i: nat)
    requires i < |gifts| && gifts[i].remains != 0
    ensures Contains(MessageOf(gifts, timestamp), Block(gifts[i]))
  {
    var av := Available(gifts);
    AvailableComplete(gifts, i);
    var k :| 0 <= k < |av| && av[k] == gifts[i];
    JoinContains(av, k);
    var p: nat :| OccursAt(Join(av), Block(av[k]), p);
    OccursBefore(Join(av), Footer(timestamp), Block(gifts[i]), p);
    OccursAfter(AvailableHeader, Join(av) + Footer(timestamp), Block(gifts[i]), p);
  }

  /** A run of consecutive pieces that spells `text` makes `text` occur in the whole. */
  lemma PiecesContain(parts: seq<string>, i: nat, j: nat, text: string)
    requires i <= j <= |parts| && Concat(parts[i..j]) == text
    ensures Contains(Concat(parts), text)
  {
    ConcatOccurs(parts, i, j);
    assert OccursAt(Concat(parts), text, |Concat(parts[..i])|);
  }

  /** A block names its gift, its price and its remaining and total supply. */
  lemma BlockFields(g: Item)
    ensures Contains(Block(g), "Gift " + Decimal(g.id as int))
    ensures Contains(Block(g), "Stars: " + Decimal(g.stars as int))
    ensures Contains(Block(g), "Available: " + Decimal(g.remains as int) + "/" + Decimal(g.total as int))
  {
    var parts := BlockParts(g);
    var gift, stars, avail := parts[1..3], parts[4..6], parts[7..11];
    assert gift == ["Gift ", Decimal(g.id as int)];
    assert stars == ["Stars: ", Decimal(g.stars as int)];
    assert avail == ["Available: ", Decimal(g.remains as int), "/", Decimal(g.total as int)];
    ConcatPieces(gift);
    ConcatPieces(stars);
    ConcatPieces(avail);
    PiecesContain(parts, 1, 3, "Gift " + Decimal(g.id as int));
    PiecesContain(parts, 4, 6, "Stars: " + Decimal(g.stars as int));
    PiecesContain(parts, 7, 11, "Available: " + Decimal(g.remains as int) + "/" + Decimal(g.total as int));
  }

  /**
   * For every gift in stock the notification names the gift, its price and
   * its remaining and total supply.
   */
  lemma MessageNamesInStock(gifts: seq<Item>, timestamp: string, i: nat)
    requires i < |gifts| && gifts[i].remains != 0
    ensures var m := MessageOf(gifts, timestamp);
            var g := gifts[i];
            && Contains(m, "Gift " + Decimal(g.id as int))
            && Contains(m, "Stars: " + Decimal(g.stars as int))
            && Contains(m, "Available: " + Decimal(g.remains as int) + "/" + Decimal(g.total as int))
  {
    var m := MessageOf(gifts, timestamp);
    var g := gifts[i];
    MessageListsInStock(gifts, timestamp, i);
    var p: nat :| OccursAt(m, Block(g), p);
    BlockFields(g);
    var q1: nat :| OccursAt(Block(g), "Gift " + Decimal(g.id as int), q1);
    OccursWithin(m, Block(g), "Gift " + Decimal(g.id as int), p, q1);
    var q2: nat :| OccursAt(Block(g), "Stars: " + Decimal(g.stars as int), q2);
    OccursWithin(m, Block(g), "Stars: " + Decimal(g.stars as int), p, q2);
    var avail := "Available: " + Decimal(g.remains as int) + "/" + Decimal(g.total as int);
    var q3: nat :| OccursAt(Block(g), avail, q3);
    OccursWithin(m, Block(g), avail, p, q3);
  }

  /** The digits the example below needs. */
  lemma SmallDecimals()
    ensures Decimal(7) == "7" && Decimal(3) == "3" && Decimal(10) == "10"
    ensures "Gift " + Decimal(7) == "Gift 7"
  {
    assert NatDecimal(1) == ['1'];
    assert Decimal(10) == ['1', '0'];
  }

  /** "3/10" inside the availability text of 3 of 10. */
  lemma RatioExample()
    ensures OccursAt("Available: " + Decimal(3) + "/" + Decimal(10), "3/10", 11)
  {
    SmallDecimals();
    var prefix := "Available: ";
    var ratio := Decimal(3) + "/" + Decimal(10);
    assert ratio == ['3'] + "/" + ['1', '0'];
    assert ['3'] + "/" + ['1', '0'] == "3/10";
    Associative(prefix + Decimal(3), "/", Decimal(10));
    Associative(prefix, Decimal(3), "/" + Decimal(10));
    Associative(Decimal(3), "/", Decimal(10));
    assert OccursAt(ratio, ratio, 0);
    OccursAfter(prefix, ratio, ratio, 0);
  }

  /** One gift with id 7, 50 stars, 3 of 10 left: the body is sent and shows "Gift 7" and "3/10". */
  lemma SingleGiftExample(timestamp: string)
    ensures var m := MessageOf([Item(7, 50, 3, 10, false)], timestamp);
            m != "" && Contains(m, "Gift 7") && Contains(m, "3/10")
  {
    var g := Item(7, 50, 3, 10, false);
    var m := MessageOf([g], timestamp);
    MessageEmpty([g], timestamp);
    MessageNamesInStock([g], timestamp, 0);
    SmallDecimals();
    RatioExample();
    var avail := "Available: " + Decimal(3) + "/" + Decimal(10);
    var p: nat :| OccursAt(m, avail, p);
    OccursWithin(m, avail, "3/10", p, 11);
    var q: nat :| OccursAt(m, "Gift " + Decimal(7), q);
    assert OccursAt(m, "Gift 7", q);
  }

  /**
   * The first loop of `formatGiftUpdateMessage`: the block of every gift in
   * stock, in catalogue order (`inStock` names the gifts they describe).
   */
  method CollectBlocks(gifts: seq<Item>) returns (availableGifts: seq<string>, ghost inStock: seq<Item>)
    ensures inStock == Available(gifts)
    ensures |availableGifts| == |inStock|
    ensures forall k :: 0 <= k < |inStock| ==> availableGifts[k] == Block(inStock[k])
  {
    availableGifts, inStock := [], [];
    for i := 0 to |gifts|
      invariant inStock == Available(gifts[..i])
      invariant |availableGifts| == |inStock|
      invariant forall k :: 0 <= k < |inStock| ==> availableGifts[k] == Block(inStock[k])
    {
      var gft := gifts[i];
      assert gifts[..i + 1][..i] == gifts[..i];
      if gft.remains == 0 {
        continue;
      }
      availableGifts := availableGifts + [Block(gft)];
      inStock := inStock + [gft];
    }
    assert gifts[..|gifts|] == gifts;
  }

  /**
   * The writing loop of `formatGiftUpdateMessage`: each collected block and a
   * blank line after it, appended to `message` in order.
   */
  method WriteBlocks(message: string, availableGifts: seq<string>, ghost inStock: seq<Item>) returns (written: string)
    requires |availableGifts| == |inStock|
    requires forall k :: 0 <= k < |inStock| ==> availableGifts[k] == Block(inStock[k])
    ensures written == message + Join(inStock)
  {
    written := message;
    for k := 0 to |availableGifts|
      invariant written == message + Join(inStock[..k])
    {
      ghost var before := written;
      assert inStock[..k + 1][..k] == inStock[..k];
      written := written + availableGifts[k];
      written := written + Separator;
      Associative(before, Block(inStock[k]), Separator);
      Associative(message, Join(inStock[..k]), Entry(inStock[k]));
    }
    assert inStock[..|inStock|] == inStock;
  }

  /**
   * `formatGiftUpdateMessage`: collect the blocks of the gifts in stock, then
   * write the header, the blocks and the timestamp line into one string.
   */
  method FormatGiftUpdateMessage(gifts: seq<Item>, timestamp: string) returns (message: string)
    ensures message == MessageOf(gifts, timestamp)
  {
    var availableGifts, inStock := CollectBlocks(gifts);
    var soldOutGifts: seq<string> := [];
    if |availableGifts| == 0 && |soldOutGifts| == 0 {
      assert MessageOf(gifts, timestamp) == "";
      return "";
    }

    message := "";
    if |availableGifts| > 0 {
      message := message + AvailableHeader;
      assert message == AvailableHeader;
      message := WriteBlocks(message, availableGifts, inStock);
    }
    assert message == AvailableHeader + Join(inStock);
    Associative(AvailableHeader, Join(inStock), Footer(timestamp));
    message := message + Footer(timestamp);
    assert Available(gifts) == inStock != [];
  }
}
