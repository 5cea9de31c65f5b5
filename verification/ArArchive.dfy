// The `ar` container of Debian packages: the writer in xtask/src/bundle.rs and the reader that checks it.
module ArArchives {
  import opened Arithmetic
  import opened Decimals
  import opened Options

  datatype Member = Member(name: seq<byte>, data: seq<byte>)

  predicate IsAscii(text: seq<byte>) {
    forall i :: 0 <= i < |text| ==> text[i] < 128
  }

  /** Names are padded by characters and stored as bytes; for ASCII the two are one. */
  type Name = text: seq<byte> | IsAscii(text) witness []

  type AsciiMember = m: Member | IsAscii(m.name) witness Member([], [])

  const SPACE: byte := ' ' as int
  const NEWLINE: byte := 10
  const ZERO: byte := '0' as int

  const MAGIC: seq<byte> := ['!' as int, '<' as int, 'a' as int, 'r' as int, 'c' as int, 'h' as int, '>' as int, NEWLINE]
  const MODE: seq<byte> := ['1' as int, '0' as int, '0' as int, '6' as int, '4' as int, '4' as int]
  const TERMINATOR: seq<byte> := ['`' as int, NEWLINE]

  // ----- Writing -----

  function Spaces(n: nat): (s: seq<byte>)
    ensures |s| == n && forall i :: 0 <= i < n ==> s[i] == SPACE
  {
    seq(n, i => SPACE)
  }

  /** `{text:<width}`: padded on the right, never cut. */
  function Column(text: seq<byte>, width: nat): (s: seq<byte>)
    ensures |s| == if |text| < width then width else |text|
  {
    if |text| < width then text + Spaces(width - |text|) else text
  }

  /** Modification time, owner, group and mode: the same for every member. */
  function Fixed(): (s: seq<byte>)
    ensures |s| == 32
  {
    Column([ZERO], 12) + Column([ZERO], 6) + Column([ZERO], 6) + Column(MODE, 8)
  }

  function SizeText(size: nat): seq<byte> {
    Padded(size, 1)
  }

  function Header(name: Name, size: nat): (h: seq<byte>)
    ensures |h| >= 60
  {
    Column(name, 16) + (Fixed() + (Column(SizeText(size), 10) + TERMINATOR))
  }

  function Padding(size: nat): seq<byte> {
    if size % 2 == 1 then [NEWLINE] else []
  }

  function Entry(m: AsciiMember): seq<byte> {
    Header(m.name, |m.data|) + (m.data + Padding(|m.data|))
  }

  function Entries(members: seq<AsciiMember>): seq<byte> {
    if members == [] then [] else Entry(members[0]) + Entries(members[1..])
  }

  class Buffer {
    var bytes: seq<byte>

    constructor ()
      ensures bytes == []
    {
      bytes := [];
    }
  }

  lemma {:induction false} EntriesOfConcat(a: seq<AsciiMember>, b: seq<AsciiMember>)
    ensures Entries(a + b) == Entries(a) + Entries(b)
  {
    if a == [] {
      assert a + b == b;
    } else {
      assert (a + b)[1..] == a[1..] + b;
      EntriesOfConcat(a[1..], b);
    }
  }

  lemma EntriesGrow(members: seq<AsciiMember>, i: nat)
    requires i < |members|
    ensures Entries(members[..i + 1]) == Entries(members[..i]) + Entry(members[i])
  {
    assert members[..i + 1] == members[..i] + [members[i]];
    EntriesOfConcat(members[..i], [members[i]]);
    assert Entries([members[i]]) == Entry(members[i]) + Entries([]);
  }

  /** A buffer after the writer has appended an archive to it. */
  function Written(before: seq<byte>, members: seq<AsciiMember>): seq<byte> {
    before + MAGIC + Entries(members)
  }

  lemma WrittenGrows(before: seq<byte>, members: seq<AsciiMember>, i: nat)
    requires i < |members|
    ensures Written(before, members[..i + 1]) == Written(before, members[..i]) + Entry(members[i])
  {
    EntriesGrow(members, i);
  }

  lemma Reassociate(a: seq<byte>, b: seq<byte>, c: seq<byte>, d: seq<byte>)
    ensures a + b + c + d == a + (b + (c + d))
  {
  }

  lemma EntryInParts(before: seq<byte>, m: AsciiMember)
    ensures before + Header(m.name, |m.data|) + m.data + Padding(|m.data|) == before + Entry(m)
  {
    Reassociate(before, Header(m.name, |m.data|), m.data, Padding(|m.data|));
  }

  method WriteArArchive(out: Buffer, members: seq<AsciiMember>)
    modifies out
    ensures out.bytes == Written(old(out.bytes), members)
  {
    ghost var before := out.bytes;
    out.bytes := out.bytes + MAGIC;
    assert Written(before, members[..0]) == before + MAGIC;
    for i := 0 to |members|
      invariant out.bytes == Written(before, members[..i])
    {
      WrittenGrows(before, members, i);
      WriteMember(out, members[i]);
    }
    assert members[..|members|] == members;
  }

  /** One round of the writer's loop. */
  method WriteMember(out: Buffer, member: AsciiMember)
    modifies out
    ensures out.bytes == old(out.bytes) + Entry(member)
  {
    var Member(name, data) := member;
    EntryInParts(out.bytes, member);
    out.bytes := out.bytes + Header(name, |data|);
    out.bytes := out.bytes + data;
    if |data| % 2 == 1 {
      out.bytes := out.bytes + [NEWLINE];
    }
  }

  // ----- Reading -----

  predicate IsWhitespace(b: byte) {
    9 <= b <= 13 || b == 32
  }

  /** `str::trim`. */
  function Trim(text: seq<byte>): (t: seq<byte>)
    ensures |t| <= |text|
  {
    if text == [] then []
    else if IsWhitespace(text[0]) then Trim(text[1..])
    else if IsWhitespace(text[|text| - 1]) then Trim(text[..|text| - 1])
    else text
  }

  predicate AllDigits(text: seq<byte>) {
    forall i :: 0 <= i < |text| ==> '0' as int <= text[i] <= '9' as int
  }

  /** `str::parse::<usize>`: digits, after at most one plus sign. */
  function ParseNumber(text: seq<byte>): Option<nat> {
    var digits := if text != [] && text[0] == '+' as int then text[1..] else text;
    if digits != [] && AllDigits(digits) then Some(Value(digits)) else None
  }

  function Prepend(front: seq<Member>, rest: Option<seq<Member>>): Option<seq<Member>> {
    if rest == None then None else Some(front + rest.value)
  }

  lemma PrependTwice(a: seq<Member>, b: seq<Member>, rest: Option<seq<Member>>)
    ensures Prepend(a, Prepend(b, rest)) == Prepend(a + b, rest)
  {
    if rest.Some? {
      assert a + (b + rest.value) == a + b + rest.value;
    }
  }

  function NameField(bytes: seq<byte>, offset: nat): (name: seq<byte>)
    requires offset + 60 <= |bytes|
    ensures |name| <= 16
  {
    Trim(bytes[offset..offset + 16])
  }

  function SizeField(bytes: seq<byte>, offset: nat): Option<nat>
    requires offset + 60 <= |bytes|
  {
    ParseNumber(Trim(bytes[offset + 48..offset + 58]))
  }

  /** The member whose header starts at `offset` and the offset after it; `None` where the reader panics. */
  function EntryAt(bytes: seq<byte>, offset: nat): (r: Option<(Member, nat)>)
    requires offset + 60 <= |bytes|
    ensures r.Some? ==> r.value.1 > offset
  {
    var dataStart := offset + 60;
    match SizeField(bytes, offset)
    case None => None
    case Some(size) =>
      if dataStart + size > |bytes| then None
      else
        Some((Member(NameField(bytes, offset), bytes[dataStart..dataStart + size]), dataStart + size + size % 2))
  }

  /** What the reader collects from `offset` on. */
  function ParseFrom(bytes: seq<byte>, offset: nat): Option<seq<Member>>
    decreases |bytes| - offset
  {
    if offset + 60 > |bytes| then Some([])
    else
      match EntryAt(bytes, offset)
      case None => None
      case Some((member, next)) => Prepend([member], ParseFrom(bytes, next))
  }

  /** The reader has collected `members` and stands at `offset`. */
  ghost predicate HasRead(bytes: seq<byte>, start: nat, members: seq<Member>, offset: nat) {
    ParseFrom(bytes, start) == Prepend(members, ParseFrom(bytes, offset))
  }

  lemma HasReadNothing(bytes: seq<byte>, start: nat)
    ensures HasRead(bytes, start, [], start)
  {
    PrependNothing(ParseFrom(bytes, start));
  }

  lemma HasReadOneMore(bytes: seq<byte>, start: nat, members: seq<Member>, offset: nat, member: Member, next: nat)
    requires HasRead(bytes, start, members, offset)
    requires offset + 60 <= |bytes| && EntryAt(bytes, offset) == Some((member, next))
    ensures HasRead(bytes, start, members + [member], next)
  {
    PrependTwice(members, [member], ParseFrom(bytes, next));
  }

  method ParseAr(bytes: seq<byte>) returns (result: Option<seq<Member>>)
    ensures result == ParseFrom(bytes, 8)
  {
    var members: seq<Member> := [];
    ghost var start := 8;
    var offset := 8;
    HasReadNothing(bytes, start);
    while offset + 60 <= |bytes|
      invariant HasRead(bytes, start, members, offset)
      decreases |bytes| - offset
    {
      var entry := ReadMember(bytes, offset);
      if entry == None {
        return None;
      }
      var (member, next) := entry.value;
      HasReadOneMore(bytes, start, members, offset, member, next);
      members := members + [member];
      offset := next;
    }
    assert members + [] == members;
    return Some(members);
  }

  /** One round of the reader's loop. */
  method ReadMember(bytes: seq<byte>, offset: nat) returns (entry: Option<(Member, nat)>)
    requires offset + 60 <= |bytes|
    ensures entry == EntryAt(bytes, offset)
  {
    hide NameField, SizeField;
    var name := NameField(bytes, offset);
    var parsed := SizeField(bytes, offset);
    if parsed == None {
      return None;
    }
    var size := parsed.value;
    var dataStart := offset + 60;
    if dataStart + size > |bytes| {
      return None;
    }
    var data := bytes[dataStart..dataStart + size];
    var next := dataStart + size;
    if size % 2 == 1 {
      next := next + 1;
    }
    return Some((Member(name, data), next));
  }

  lemma PrependNothing(rest: Option<seq<Member>>)
    ensures Prepend([], rest) == rest
  {
    if rest.Some? {
      assert [] + rest.value == rest.value;
    }
  }

  // ----- The layout of an archive -----

  predicate Fits(m: AsciiMember) {
    |m.name| <= 16 && |m.data| < 10000000000
  }

  lemma SizeTextWidth(size: nat)
    ensures |SizeText(size)| <= 10 <==> size < 10000000000
  {
    assert Pow10(10) == 10000000000 by {
      assert Pow10(5) == 100000;
    }
    PlainWidth(size, 1, 10);
  }

  /** The header has the sixty bytes of the format exactly when the name and the size fit their columns. */
  lemma HeaderIsSixtyBytes(m: AsciiMember)
    ensures |Header(m.name, |m.data|)| == 60 <==> Fits(m)
  {
    SizeTextWidth(|m.data|);
  }

  function Length(m: AsciiMember): nat {
    60 + |m.data| + |m.data| % 2
  }

  lemma EntryLength(m: AsciiMember)
    requires Fits(m)
    ensures |Entry(m)| == Length(m)
  {
    HeaderIsSixtyBytes(m);
  }

  /** Every member starts at an even offset. */
  lemma {:induction false} MembersStartEven(members: seq<AsciiMember>, k: nat)
    requires k <= |members| && forall i :: 0 <= i < k ==> Fits(members[i])
    ensures |Written([], members[..k])| % 2 == 0
  {
    hide Entry;
    if k > 0 {
      MembersStartEven(members, k - 1);
      WrittenGrows([], members, k - 1);
      EntryLength(members[k - 1]);
    }
  }

  /** A text at the left of its column, filled up with blanks. */
  ghost predicate IsColumnOf(bytes: seq<byte>, at: nat, width: nat, text: seq<byte>) {
    && |text| <= width && at + width <= |bytes|
    && forall k :: 0 <= k < width ==> bytes[at + k] == if k < |text| then text[k] else 32
  }

  /** The columns of a header in the common format: name, modification time, owner and group 0, mode 100644 in octal, the
      size in decimal, and the two closing bytes. */
  ghost predicate HasColumns(bytes: seq<byte>, at: nat, m: AsciiMember) {
    && at + 60 <= |bytes|
    && IsColumnOf(bytes, at, 16, m.name) && IsColumnOf(bytes, at + 16, 12, [48])
    && IsColumnOf(bytes, at + 28, 6, [48]) && IsColumnOf(bytes, at + 34, 6, [48])
    && IsColumnOf(bytes, at + 40, 8, [49, 48, 48, 54, 52, 52]) && IsColumnOf(bytes, at + 48, 10, SizeText(|m.data|))
    && bytes[at + 58] == 96 && bytes[at + 59] == 10
  }

  lemma ColumnIsColumn(text: seq<byte>, width: nat, before: seq<byte>, after: seq<byte>)
    requires |text| <= width
    ensures IsColumnOf(before + Column(text, width) + after, |before|, width, text)
  {
  }

  lemma ColumnInside(bytes: seq<byte>, at: nat, width: nat, text: seq<byte>, before: seq<byte>, after: seq<byte>)
    requires IsColumnOf(bytes, at, width, text)
    ensures IsColumnOf(before + bytes + after, |before| + at, width, text)
  {
    var longer := before + bytes + after;
    assert forall j :: at <= j < at + width ==> bytes[j] == longer[|before| + j];
  }

  lemma FixedColumns()
    ensures IsColumnOf(Fixed(), 0, 12, [48]) && IsColumnOf(Fixed(), 12, 6, [48]) && IsColumnOf(Fixed(), 18, 6, [48])
    ensures IsColumnOf(Fixed(), 24, 8, [49, 48, 48, 54, 52, 52])
  {
  }

  /** The decimal digits of a number, without leading zeros. */
  ghost predicate IsDecimalOf(text: seq<byte>, n: nat) {
    text != [] && AllDigits(text) && Value(text) == n && (text[0] == ZERO ==> |text| == 1)
  }

  lemma {:induction false} NoLeadingZeros(n: nat, width: nat)
    requires width <= 1
    ensures n > 0 ==> Padded(n, width)[0] != ZERO
  {
    if n >= 10 {
      NoLeadingZeros(n / 10, 0);
    }
  }

  lemma SizeIsDecimal(size: nat)
    ensures IsDecimalOf(SizeText(size), size)
  {
    ValueOfPadded(size, 1);
    NoLeadingZeros(size, 1);
  }

  /** An entry that fits: sixty bytes of header, the data, and one more newline if that makes the length even. */
  lemma EntryLayout(m: AsciiMember)
    requires Fits(m)
    ensures HasColumns(Entry(m), 0, m) && |Entry(m)| == 60 + |m.data| + |m.data| % 2
    ensures IsDecimalOf(SizeText(|m.data|), |m.data|)
    ensures Entry(m)[60..60 + |m.data|] == m.data
    ensures |m.data| % 2 == 1 ==> Entry(m)[60 + |m.data|] == 10
  {
    hide HasColumns, IsDecimalOf, SizeText, Header, Padding;
    var header, rest := Header(m.name, |m.data|), m.data + Padding(|m.data|);
    SizeIsDecimal(|m.data|);
    HeaderIsSixtyBytes(m);
    HeaderHasColumns(m);
    ColumnsInFront(header, rest, m);
    DataAndPadding(header, m.data);
  }

  lemma DataAndPadding(header: seq<byte>, data: seq<byte>)
    requires |header| == 60
    ensures var entry := header + (data + Padding(|data|));
      && |entry| == 60 + |data| + |data| % 2 && entry[60..60 + |data|] == data
      && (|data| % 2 == 1 ==> entry[60 + |data|] == 10)
  {
  }

  lemma ColumnsInFront(header: seq<byte>, rest: seq<byte>, m: AsciiMember)
    requires HasColumns(header, 0, m)
    ensures HasColumns(header + rest, 0, m)
  {
    hide IsColumnOf, SizeText;
    assert header + rest == [] + header + rest;
    ColumnInside(header, 0, 16, m.name, [], rest);
    ColumnInside(header, 16, 12, [48], [], rest);
    ColumnInside(header, 28, 6, [48], [], rest);
    ColumnInside(header, 34, 6, [48], [], rest);
    ColumnInside(header, 40, 8, [49, 48, 48, 54, 52, 52], [], rest);
    ColumnInside(header, 48, 10, SizeText(|m.data|), [], rest);
  }

  lemma HeaderHasColumns(m: AsciiMember)
    requires Fits(m)
    ensures HasColumns(Header(m.name, |m.data|), 0, m)
  {
    hide IsColumnOf, Column, Fixed, SizeText;
    var name, fixed, size, header := Column(m.name, 16), Fixed(), Column(SizeText(|m.data|), 10), Header(m.name, |m.data|);
    SizeTextWidth(|m.data|);
    FixedColumns();
    ColumnIsColumn(m.name, 16, [], fixed + (size + TERMINATOR));
    assert header == [] + name + (fixed + (size + TERMINATOR));
    ColumnIsColumn(SizeText(|m.data|), 10, name + fixed, TERMINATOR);
    assert header == name + fixed + size + TERMINATOR;
    ColumnInside(fixed, 0, 12, [48], name, size + TERMINATOR);
    ColumnInside(fixed, 12, 6, [48], name, size + TERMINATOR);
    ColumnInside(fixed, 18, 6, [48], name, size + TERMINATOR);
    ColumnInside(fixed, 24, 8, [49, 48, 48, 54, 52, 52], name, size + TERMINATOR);
    assert header == name + fixed + (size + TERMINATOR);
    assert |header| == 60 && header[58] == TERMINATOR[0] && header[59] == TERMINATOR[1];
  }

  /** An archive opens with the eight bytes of the text "!<arch>" and a newline; each entry follows the one before. */
  lemma ArchiveLayout(members: seq<AsciiMember>, k: nat)
    requires k < |members| && AllFit(members, 0)
    ensures var archive := Written([], members); var at := |Written([], members[..k])|;
      && archive[..8] == [33, 60, 97, 114, 99, 104, 62, 10]
      && at + |Entry(members[k])| <= |archive| && archive[at..at + |Entry(members[k])|] == Entry(members[k])
  {
    hide Entry, Entries;
    var before, entry, after := Entries(members[..k]), Entry(members[k]), Entries(members[k + 1..]);
    FirstEntryApart(members, k);
    assert members == members[..k] + members[k..];
    EntriesOfConcat(members[..k], members[k..]);
    Reassociate(MAGIC, before, entry, after);
    MiddlePart(MAGIC + before, entry, after);
    assert Written([], members) == MAGIC + before + entry + after && Written([], members[..k]) == MAGIC + before;
    assert (MAGIC + before + entry + after)[..8] == MAGIC;
  }

  lemma MiddlePart(a: seq<byte>, b: seq<byte>, c: seq<byte>)
    ensures (a + b + c)[|a|..|a| + |b|] == b
  {
  }

  // ----- Reading what was written -----

  predicate IsBlank(text: seq<byte>) {
    forall i :: 0 <= i < |text| ==> IsWhitespace(text[i])
  }

  predicate IsTrimmed(text: seq<byte>) {
    text == [] || (!IsWhitespace(text[0]) && !IsWhitespace(text[|text| - 1]))
  }

  /** Trimming takes off exactly the outer whitespace. */
  lemma {:induction false} TrimIsExact(text: seq<byte>) returns (before: seq<byte>, after: seq<byte>)
    ensures text == before + Trim(text) + after
    ensures IsBlank(before) && IsBlank(after) && IsTrimmed(Trim(text))
    ensures Trim(text) == text <==> IsTrimmed(text)
  {
    before, after := [], [];
    if text == [] {
    } else if IsWhitespace(text[0]) {
      before, after := TrimIsExact(text[1..]);
      before := [text[0]] + before;
    } else if IsWhitespace(text[|text| - 1]) {
      before, after := TrimIsExact(text[..|text| - 1]);
      after := after + [text[|text| - 1]];
    }
  }

  lemma {:induction false} TrimOfSpace(text: seq<byte>)
    ensures Trim(text + [SPACE]) == Trim(text)
  {
    var longer := text + [SPACE];
    assert longer[..|text|] == text;
    if text == [] {
      assert longer[1..] == [];
    } else if IsWhitespace(text[0]) {
      assert longer[1..] == text[1..] + [SPACE];
      TrimOfSpace(text[1..]);
    }
  }

  lemma {:induction false} TrimOfSpaces(text: seq<byte>, n: nat)
    ensures Trim(text + Spaces(n)) == Trim(text)
  {
    if n == 0 {
      assert text + Spaces(n) == text;
    } else {
      assert text + Spaces(n) == text + Spaces(n - 1) + [SPACE];
      TrimOfSpace(text + Spaces(n - 1));
      TrimOfSpaces(text, n - 1);
    }
  }

  lemma TrimOfColumn(text: seq<byte>, width: nat)
    ensures Trim(Column(text, width)) == Trim(text)
  {
    if |text| < width {
      TrimOfSpaces(text, width - |text|);
    }
  }

  lemma DigitsAreRead(text: seq<byte>)
    requires text != [] && AllDigits(text)
    ensures ParseNumber(Trim(text)) == Some(Value(text))
  {
    assert !IsWhitespace(text[0]) && !IsWhitespace(text[|text| - 1]);
  }

  lemma HeaderColumns(name: Name, size: nat)
    requires |name| <= 16
    ensures |Header(name, size)| >= 60
    ensures Header(name, size)[..16] == Column(name, 16)
    ensures Header(name, size)[48..58] == Column(SizeText(size), 10)[..10]
  {
  }

  ghost predicate SizeIsRead(read: Option<nat>, size: nat) {
    read.Some? && if size < 10000000000 then read.value == size else read.value < size
  }

  lemma FittingSizeIsRead(size: nat)
    requires size < 10000000000
    ensures ParseNumber(Trim(Column(SizeText(size), 10)[..10])) == Some(size)
  {
    var text := SizeText(size);
    SizeTextWidth(size);
    assert Column(text, 10)[..10] == Column(text, 10);
    TrimOfColumn(text, 10);
    DigitsAreRead(text);
    ValueOfPadded(size, 1);
  }

  lemma OverflowingSizeIsCut(size: nat)
    requires size >= 10000000000
    ensures SizeIsRead(ParseNumber(Trim(Column(SizeText(size), 10)[..10])), size)
  {
    var text := SizeText(size);
    SizeTextWidth(size);
    DigitsAreRead(text[..10]);
    ValueOfPadded(size, 1);
    PrefixIsSmaller(text, 10);
  }

  lemma SizeAsRead(name: Name, size: nat, column: seq<byte>)
    requires |name| <= 16 && column == Header(name, size)[48..58]
    ensures SizeIsRead(ParseNumber(Trim(column)), size)
  {
    HeaderColumns(name, size);
    if size < 10000000000 {
      FittingSizeIsRead(size);
    } else {
      OverflowingSizeIsCut(size);
    }
  }

  lemma NameAsRead(name: Name, size: nat, column: seq<byte>)
    requires |name| <= 16 && column == Header(name, size)[0..16]
    ensures Trim(column) == Trim(name)
  {
    HeaderColumns(name, size);
    TrimOfColumn(name, 16);
  }

  lemma SuffixSplits(bytes: seq<byte>, at: nat, a: seq<byte>, b: seq<byte>)
    requires at <= |bytes| && bytes[at..] == a + b
    ensures at + |a| <= |bytes| && bytes[at..at + |a|] == a && bytes[at + |a|..] == b
  {
    var suffix, rest := bytes[at..], bytes[at + |a|..];
    assert suffix[..|a|] == a;
    forall i | 0 <= i < |a| ensures bytes[at + i] == a[i] {
      assert suffix[i] == (a + b)[i];
    }
    forall i | 0 <= i < |b| ensures rest[i] == b[i] {
      assert rest[i] == suffix[|a| + i] == (a + b)[|a| + i];
    }
  }

  lemma InnerSlice(bytes: seq<byte>, at: nat, part: seq<byte>, i: nat, j: nat)
    requires at + |part| <= |bytes| && bytes[at..at + |part|] == part && i <= j <= |part|
    ensures bytes[at + i..at + j] == part[i..j]
  {
    var window, inner := bytes[at..at + |part|], bytes[at + i..at + j];
    forall k | 0 <= k < j - i ensures inner[k] == part[i..j][k] {
      assert inner[k] == window[i + k];
    }
  }

  function AsRead(m: AsciiMember): Member {
    m.(name := Trim(m.name))
  }

  /** What the reader finds in a header: the name trimmed, and the size as written, or less when its digits
      overflow their column. */
  lemma HeaderIsRead(bytes: seq<byte>, at: nat, name: Name, size: nat, header: seq<byte>)
    requires header == Header(name, size)
    requires at + |header| <= |bytes| && bytes[at..at + |header|] == header && |name| <= 16
    ensures NameField(bytes, at) == Trim(name) && SizeIsRead(SizeField(bytes, at), size)
  {
    hide Trim, ParseNumber, Header;
    InnerSlice(bytes, at, header, 0, 16);
    InnerSlice(bytes, at, header, 48, 58);
    NameAsRead(name, size, header[0..16]);
    SizeAsRead(name, size, header[48..58]);
  }

  /** What the reader makes of the entry for `m`: if it fits, the member is read with its name trimmed and its
      data; otherwise the reading fails or differs. */
  ghost predicate IsMet(bytes: seq<byte>, at: nat, m: AsciiMember) {
    && at + 60 <= |bytes|
    && (Fits(m) ==> EntryAt(bytes, at) == Some((AsRead(m), at + Length(m))))
    && (!Fits(m) ==> EntryAt(bytes, at) == None || EntryAt(bytes, at).value.0 != m)
  }

  /** A member that fits is read with its data; of one that does not, the name is cut, or the size is. */
  lemma EntryIsRead(bytes: seq<byte>, at: nat, m: AsciiMember, header: seq<byte>, after: seq<byte>)
    requires header == Header(m.name, |m.data|)
    requires at <= |bytes| && bytes[at..] == header + (m.data + after)
    ensures IsMet(bytes, at, m)
  {
    hide NameField, SizeField, Trim, Header;
    SuffixSplits(bytes, at, header, m.data + after);
    if |m.name| <= 16 {
      HeaderIsRead(bytes, at, m.name, |m.data|, header);
    }
    if Fits(m) {
      HeaderIsSixtyBytes(m);
      SuffixSplits(bytes, at + 60, m.data, after);
    }
  }

  lemma Regroup(a: seq<byte>, b: seq<byte>, c: seq<byte>, d: seq<byte>)
    ensures a + (b + c) + d == a + (b + (c + d))
  {
  }

  lemma FirstEntryIsRead(bytes: seq<byte>, at: nat, m: AsciiMember, rest: seq<byte>)
    requires at <= |bytes| && bytes[at..] == Entry(m) + rest
    ensures IsMet(bytes, at, m)
    ensures Fits(m) ==> at + Length(m) <= |bytes| && bytes[at + Length(m)..] == rest
  {
    hide IsMet, Header;
    var header, padding := Header(m.name, |m.data|), Padding(|m.data|);
    Regroup(header, m.data, padding, rest);
    EntryIsRead(bytes, at, m, header, padding + rest);
    if Fits(m) {
      EntryLength(m);
      SuffixSplits(bytes, at, Entry(m), rest);
    }
  }

  /** The reader meets the entries of `members` from the k-th on, one after the other up to the first that does
      not fit. */
  ghost predicate Meets(bytes: seq<byte>, at: nat, members: seq<AsciiMember>, k: nat)
    requires k <= |members|
    decreases |members| - k
  {
    && (k == |members| ==> at == |bytes|)
    && (k < |members| ==> IsMet(bytes, at, members[k]))
    && (k < |members| && Fits(members[k]) ==> Meets(bytes, at + Length(members[k]), members, k + 1))
  }

  lemma FirstEntryApart(members: seq<AsciiMember>, k: nat)
    requires k < |members|
    ensures Entries(members[k..]) == Entry(members[k]) + Entries(members[k + 1..])
  {
    assert members[k..][1..] == members[k + 1..];
  }

  lemma {:induction false} EntriesAreMet(bytes: seq<byte>, at: nat, members: seq<AsciiMember>, k: nat)
    requires k <= |members| && at <= |bytes| && bytes[at..] == Entries(members[k..])
    ensures Meets(bytes, at, members, k)
    decreases |members| - k
  {
    hide IsMet;
    if k < |members| {
      FirstEntryApart(members, k);
      FirstEntryIsRead(bytes, at, members[k], Entries(members[k + 1..]));
      if Fits(members[k]) {
        EntriesAreMet(bytes, at + Length(members[k]), members, k + 1);
      }
    }
  }

  lemma AfterMagic(members: seq<AsciiMember>)
    ensures |Written([], members)| >= 8 && Written([], members)[8..] == Entries(members)
  {
  }

  predicate AllFit(members: seq<AsciiMember>, k: nat) {
    forall i :: k <= i < |members| ==> Fits(members[i])
  }

  /** The members from the k-th on, their names trimmed. */
  ghost function AllAsRead(members: seq<AsciiMember>, k: nat): (read: seq<Member>)
    requires k <= |members|
    ensures |read| == |members| - k && forall i :: 0 <= i < |read| ==> read[i] == AsRead(members[k + i])
    decreases |members| - k
  {
    if k == |members| then [] else [AsRead(members[k])] + AllAsRead(members, k + 1)
  }

  lemma {:induction false} FittingEntriesAreRead(bytes: seq<byte>, at: nat, members: seq<AsciiMember>, k: nat)
    requires k <= |members| && Meets(bytes, at, members, k) && AllFit(members, k)
    ensures ParseFrom(bytes, at) == Some(AllAsRead(members, k))
    decreases |members| - k
  {
    hide EntryAt, AsRead;
    if k < |members| {
      FittingEntriesAreRead(bytes, at + Length(members[k]), members, k + 1);
    }
  }

  /** Whatever fits is read back complete and in order, with the names trimmed. */
  lemma WrittenIsReadTrimmed(members: seq<AsciiMember>)
    requires AllFit(members, 0)
    ensures ParseFrom(Written([], members), 8) == Some(AllAsRead(members, 0))
  {
    AfterMagic(members);
    assert members[0..] == members;
    EntriesAreMet(Written([], members), 8, members, 0);
    FittingEntriesAreRead(Written([], members), 8, members, 0);
  }

  predicate IsClean(m: AsciiMember) {
    Fits(m) && Trim(m.name) == m.name
  }

  lemma PrependIsExactly(member: Member, rest: Option<seq<Member>>, members: seq<Member>)
    requires members != []
    ensures Prepend([member], rest) == Some(members) <==> member == members[0] && rest == Some(members[1..])
  {
    if rest.Some? {
      assert ([member] + rest.value)[1..] == rest.value;
      assert members == [members[0]] + members[1..];
    }
  }

  predicate CleanFrom(members: seq<AsciiMember>, k: nat) {
    forall i :: k <= i < |members| ==> IsClean(members[i])
  }

  lemma {:induction false} OnlyCleanEntriesAreReadBack(bytes: seq<byte>, at: nat, members: seq<AsciiMember>, k: nat)
    requires k <= |members| && Meets(bytes, at, members, k)
    ensures ParseFrom(bytes, at) == Some(members[k..]) <==> CleanFrom(members, k)
    decreases |members| - k
  {
    hide EntryAt, Trim;
    if k < |members| {
      var first := members[k];
      assert members[k..][1..] == members[k + 1..];
      if Fits(first) {
        var next := at + Length(first);
        OnlyCleanEntriesAreReadBack(bytes, next, members, k + 1);
        PrependIsExactly(AsRead(first), ParseFrom(bytes, next), members[k..]);
      } else if EntryAt(bytes, at).Some? {
        var (read, after) := EntryAt(bytes, at).value;
        PrependIsExactly(read, ParseFrom(bytes, after), members[k..]);
      }
    } else {
      assert members[k..] == [];
    }
  }

  /** Reading returns exactly what was written - names, contents and order - if and only if every name has at
      most sixteen characters and no outer whitespace, and every size is below ten billion. */
  lemma RoundTripsExactlyWhenClean(members: seq<AsciiMember>)
    ensures ParseFrom(Written([], members), 8) == Some(members) <==> CleanFrom(members, 0)
  {
    AfterMagic(members);
    assert members[0..] == members;
    EntriesAreMet(Written([], members), 8, members, 0);
    OnlyCleanEntriesAreReadBack(Written([], members), 8, members, 0);
  }
}
