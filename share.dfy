// The plain-text message a combination card shares: a header line and a
// blank line, one "<name> - ₹<price>" line per item in combination order,
// then a blank line and "Total: ₹<sum of prices>". Handing the text to the
// platform's share mechanism is not part of this model.

module Share {
  import opened Menu

  const Title: string := "Check out this Domino's Meal Combo:"
  const Header: string := Title + "\n\n"
  const PriceSeparator: string := " - \U{20B9}"
  const TotalLabel: string := "Total: \U{20B9}"

  // ---------------------------------------------------------------------
  // Decimal text of an integer, as string templates render an Int

  predicate IsDigit(ch: char)
  {
    '0' <= ch <= '9'
  }

  function DigitChar(d: nat): (ch: char)
    requires d < 10
    ensures IsDigit(ch) && ch as int - '0' as int == d
  {
    ('0' as int + d) as char
  }

  /** The decimal digits of n, most significant first, without leading zeros. */
  function NatToString(n: nat): (r: string)
    ensures r != [] && (forall k :: 0 <= k < |r| ==> IsDigit(r[k]))
    ensures |r| > 1 ==> r[0] != '0'
  {
    if n < 10 then [DigitChar(n)] else NatToString(n / 10) + [DigitChar(n % 10)]
  }

  /** Decimal text of an integer: a minus sign before the digits of a negative number. */
  function IntToString(n: int): (r: string)
    ensures r != [] && '\n' !in r
    ensures (r[0] == '-') <==> n < 0
  {
    if n < 0 then "-" + NatToString(-n) else NatToString(n)
  }

  /** Reads a run of decimal digits back as a number. */
  function ParseDigits(s: string): int
  {
    if s == [] then 0 else ParseDigits(s[..|s| - 1]) * 10 + (s[|s| - 1] as int - '0' as int)
  }

  /** Reads the text of an optionally negative decimal number back as a number. */
  function ParseInt(s: string): int
  {
    if s != [] && s[0] == '-' then -ParseDigits(s[1..]) else ParseDigits(s)
  }

  lemma {:induction false} NatToStringRoundTrip(n: nat)
    ensures ParseDigits(NatToString(n)) == n
  {
    if n >= 10 {
      var r := NatToString(n);
      assert r[..|r| - 1] == NatToString(n / 10);
      NatToStringRoundTrip(n / 10);
    }
  }

  /** The decimal text of every integer reads back as that integer. */
  lemma IntToStringRoundTrip(n: int)
    ensures ParseInt(IntToString(n)) == n
  {
    if n < 0 {
      assert IntToString(n)[1..] == NatToString(-n);
      NatToStringRoundTrip(-n);
    } else {
      NatToStringRoundTrip(n);
    }
  }

  // ---------------------------------------------------------------------
  // The message

  /** The text of one item's line, without its line break. */
  function ItemText(item: MenuItem): string
  {
    item.name + PriceSeparator + IntToString(item.price)
  }

  /** The item lines of the message, each ended by a line break, in combination order. */
  function ItemLines(c: seq<MenuItem>): string
  {
    if c == [] then "" else ItemText(c[0]) + "\n" + ItemLines(c[1..])
  }

  /** The share message of a combination. */
  function ShareMessage(c: seq<MenuItem>): (r: string)
    ensures Header <= r
  {
    Header + ItemLines(c) + "\n" + TotalLabel + IntToString(SumOf(c, Price))
  }

  /** No item name contains a line break. */
  predicate NamesOnOneLine(c: seq<MenuItem>)
  {
    forall k :: 0 <= k < |c| ==> '\n' !in c[k].name
  }

  // ---------------------------------------------------------------------
  // Splitting text into lines

  /** The position of the first line break in s, or |s| when there is none. */
  function IndexOfNewline(s: string): (k: nat)
    ensures k <= |s|
  {
    if s == [] then 0 else if s[0] == '\n' then 0 else 1 + IndexOfNewline(s[1..])
  }

  /** The lines of s, split at every line break; the last line is what follows the last break. */
  function SplitLines(s: string): (r: seq<string>)
    ensures r != []
    decreases |s|
  {
    var k := IndexOfNewline(s);
    if k == |s| then [s] else [s[..k]] + SplitLines(s[k + 1..])
  }

  lemma {:induction false} IndexOfNewlineAfter(a: string, rest: string)
    requires '\n' !in a
    ensures IndexOfNewline(a + "\n" + rest) == |a|
  {
    if a != [] {
      assert (a + "\n" + rest)[1..] == a[1..] + "\n" + rest;
      IndexOfNewlineAfter(a[1..], rest);
    }
  }

  lemma {:induction false} IndexOfNewlineNone(s: string)
    requires '\n' !in s
    ensures IndexOfNewline(s) == |s|
  {
    if s != [] {
      IndexOfNewlineNone(s[1..]);
    }
  }

  /** Text without a line break is a single line. */
  lemma SingleLine(s: string)
    requires '\n' !in s
    ensures SplitLines(s) == [s]
  {
    IndexOfNewlineNone(s);
  }

  /** A line without a break, followed by a break, splits off as the first line. */
  lemma SplitAfterLine(a: string, rest: string)
    requires '\n' !in a
    ensures SplitLines(a + "\n" + rest) == [a] + SplitLines(rest)
  {
    IndexOfNewlineAfter(a, rest);
    var s := a + "\n" + rest;
    assert s[..|a|] == a;
    assert s[|a| + 1..] == rest;
  }

  /** An item whose name has no line break gives a one-line item text. */
  lemma ItemTextOnOneLine(item: MenuItem)
    requires '\n' !in item.name
    ensures '\n' !in ItemText(item)
  {
    assert '\n' !in PriceSeparator;
    assert '\n' !in item.name + PriceSeparator;
  }

  /** The first item line splits off as the first line. */
  lemma SplitFirstItemLine(c: seq<MenuItem>, rest: string)
    requires c != [] && '\n' !in c[0].name
    ensures SplitLines(ItemLines(c) + rest) == [ItemText(c[0])] + SplitLines(ItemLines(c[1..]) + rest)
  {
    var t := ItemText(c[0]);
    ItemTextOnOneLine(c[0]);
    assert ItemLines(c) + rest == t + "\n" + (ItemLines(c[1..]) + rest);
    SplitAfterLine(t, ItemLines(c[1..]) + rest);
  }

  // The three regrouping lemmas below are sequence associativity. Each stands
  // alone so that its equality is proved in a small context of its own.

  lemma ConsAssociates(t: string, a: seq<string>, b: seq<string>)
    ensures [t] + (a + b) == ([t] + a) + b
  {
  }

  /** The item lines split back into one text per item, in combination order. */
  lemma {:induction false} SplitItemLines(c: seq<MenuItem>, rest: string)
    requires NamesOnOneLine(c)
    ensures SplitLines(ItemLines(c) + rest) == ItemTexts(c) + SplitLines(rest)
  {
    if c == [] {
      assert ItemLines(c) + rest == rest;
    } else {
      SplitFirstItemLine(c, rest);
      SplitItemLines(c[1..], rest);
      ConsAssociates(ItemText(c[0]), ItemTexts(c[1..]), SplitLines(rest));
    }
  }

  /** The text of each item's line, in combination order. */
  function ItemTexts(c: seq<MenuItem>): seq<string>
  {
    if c == [] then [] else [ItemText(c[0])] + ItemTexts(c[1..])
  }

  lemma MessageRegroups(title: string, items: string, total: string)
    ensures title + "\n\n" + items + "\n" + total == title + "\n" + ("" + "\n" + (items + ("" + "\n" + total)))
  {
  }

  lemma LinesRegroup(title: string, texts: seq<string>, total: string)
    ensures [title] + ([""] + (texts + ([""] + [total]))) == [title, ""] + texts + ["", total]
  {
  }

  /** The layout of the message, for any one-line title and total text. */
  lemma SplitMessageLayout(title: string, c: seq<MenuItem>, total: string)
    requires '\n' !in title && '\n' !in total && NamesOnOneLine(c)
    ensures SplitLines(title + "\n\n" + ItemLines(c) + "\n" + total)
         == [title, ""] + ItemTexts(c) + ["", total]
  {
    var last := "" + "\n" + total;
    var body := ItemLines(c) + last;
    MessageRegroups(title, ItemLines(c), total);
    SplitAfterLine(title, "" + "\n" + body);
    SplitAfterLine("", body);
    SplitItemLines(c, last);
    SplitAfterLine("", total);
    SingleLine(total);
    LinesRegroup(title, ItemTexts(c), total);
  }

  /** The message is the header, the item lines, a line break and the total line. */
  lemma MessageGroupsTotal(c: seq<MenuItem>)
    ensures ShareMessage(c)
         == Title + "\n\n" + ItemLines(c) + "\n" + (TotalLabel + IntToString(SumOf(c, Price)))
  {
    TextAssociates(Header + ItemLines(c) + "\n", TotalLabel, IntToString(SumOf(c, Price)));
  }

  lemma TextAssociates(a: string, b: string, d: string)
    ensures a + b + d == a + (b + d)
  {
  }

  lemma TitleOnOneLine()
    ensures '\n' !in Title
  {
  }

  /** The total line holds no line break. */
  lemma TotalLineOnOneLine(n: int)
    ensures '\n' !in TotalLabel + IntToString(n)
  {
    assert '\n' !in TotalLabel;
  }

  /** The number after the total label reads back as the total. */
  lemma TotalReadsBack(n: int)
    ensures ParseInt((TotalLabel + IntToString(n))[|TotalLabel|..]) == n
  {
    assert (TotalLabel + IntToString(n))[|TotalLabel|..] == IntToString(n);
    IntToStringRoundTrip(n);
  }

  lemma {:induction false} ItemTextsLength(c: seq<MenuItem>)
    ensures |ItemTexts(c)| == |c|
  {
    if c != [] {
      ItemTextsLength(c[1..]);
    }
  }

  /**
   * Read line by line, the message is the title, a blank line, one
   * "<name> - ₹<price>" line per item in combination order, a blank line, and
   * the total line, whose number reads back as the sum of the prices.
   */
  lemma ShareMessageLines(c: seq<MenuItem>)
    requires NamesOnOneLine(c)
    ensures var lines := SplitLines(ShareMessage(c));
            && lines == [Title, ""] + ItemTexts(c) + ["", TotalLabel + IntToString(SumOf(c, Price))]
            && |lines| == |c| + 4
            && ParseInt(lines[|lines| - 1][|TotalLabel|..]) == SumOf(c, Price)
  {
    var total := TotalLabel + IntToString(SumOf(c, Price));
    TotalLineOnOneLine(SumOf(c, Price));
    MessageGroupsTotal(c);
    TitleOnOneLine();
    SplitMessageLayout(Title, c, total);
    ItemTextsLength(c);
    TotalReadsBack(SumOf(c, Price));
  }
}
