/** `MessageFormatter` (Messages.cs): the font, effects and colour of a
    plain-text message, carried in its `X-MMS-IM-Format` header as
    `key=value` fields joined by `"; "`. */
module Formatting {

  import opened Wrappers
  import opened Failures
  import opened Helpers
  import opened Text
  import opened Dict
  import opened Messages

  /** `System.Drawing.Color` reduced to the three channels the header
      carries. */
  datatype Color = Color(r: byte, g: byte, b: byte)

  datatype Formatter = Formatter(font: string, bold: bool, italic: bool, underline: bool,
                                 strikethrough: bool, color: Color)

  /** `new MessageFormatter()`: the default font, no effects, the empty
      colour. */
  const NewFormatter: Formatter := Formatter("Microsoft Sans Serif", false, false, false, false, Color(0, 0, 0))

  const FormatKey: string := "X-MMS-IM-Format"
  const FieldSeparator: string := "; "

  /** The `EF` field: one letter per set effect, in the order B, I, U, S. */
  function Effects(f: Formatter): (ef: string)
    ensures 'B' in ef <==> f.bold
    ensures 'I' in ef <==> f.italic
    ensures 'U' in ef <==> f.underline
    ensures 'S' in ef <==> f.strikethrough
  {
    (if f.bold then "B" else "") + (if f.italic then "I" else "")
      + (if f.underline then "U" else "") + (if f.strikethrough then "S" else "")
  }

  /** The position of an effect letter in the written order. */
  function EffectRank(c: char): int {
    if c == 'B' then 0 else if c == 'I' then 1 else if c == 'U' then 2 else if c == 'S' then 3 else 4
  }

  /** Letters in strictly increasing rank. */
  predicate Ascending(s: string) {
    forall i, j :: 0 <= i < j < |s| ==> EffectRank(s[i]) < EffectRank(s[j])
  }

  /** Two ascending runs, the first ranked below `k` and the second at or
      above it, make an ascending run. */
  lemma AscendingConcat(a: string, b: string, k: int)
    requires Ascending(a) && Ascending(b)
    requires forall i :: 0 <= i < |a| ==> EffectRank(a[i]) < k
    requires forall i :: 0 <= i < |b| ==> EffectRank(b[i]) >= k
    ensures Ascending(a + b)
  {
    var s := a + b;
    forall i, j | 0 <= i < j < |s| ensures EffectRank(s[i]) < EffectRank(s[j]) {
      if j < |a| {
        assert s[i] == a[i] && s[j] == a[j];
      } else if i >= |a| {
        assert s[i] == b[i - |a|] && s[j] == b[j - |a|];
      } else {
        assert s[i] == a[i] && s[j] == b[j - |a|];
      }
    }
  }

  /** The effect letters are written in the order B, I, U, S. */
  lemma EffectsInOrder(f: Formatter)
    ensures Ascending(Effects(f))
  {
    var b := if f.bold then "B" else "";
    var i := if f.italic then "I" else "";
    var u := if f.underline then "U" else "";
    var st := if f.strikethrough then "S" else "";
    AscendingConcat(b, i, 1);
    AscendingConcat(b + i, u, 2);
    AscendingConcat(b + i + u, st, 3);
  }

  /** The `CO` field: blue, green, red as upper-case hex pairs. */
  function ColorCode(c: Color): (s: string)
    ensures |s| == 6
    ensures HexValue(s[0]) == Some(c.b / 16) && HexValue(s[1]) == Some(c.b % 16)
    ensures HexValue(s[2]) == Some(c.g / 16) && HexValue(s[3]) == Some(c.g % 16)
    ensures HexValue(s[4]) == Some(c.r / 16) && HexValue(s[5]) == Some(c.r % 16)
  {
    ByteToHex(c.b, true) + ByteToHex(c.g, true) + ByteToHex(c.r, true)
  }

  /** The fields `ApplyFormat` writes, in order. */
  function FormatFields(f: Formatter): Dict<string, string> {
    [("FN", Escape(f.font)), ("EF", Effects(f)), ("CO", ColorCode(f.color)), ("CS", "0"), ("PF", "22")]
  }

  function FieldText(field: (string, string)): string {
    field.0 + "=" + field.1
  }

  function FieldTexts(fields: Dict<string, string>): (ts: seq<string>)
    ensures |ts| == |fields|
    ensures forall i :: 0 <= i < |fields| ==> ts[i] == FieldText(fields[i])
  {
    seq(|fields|, i requires 0 <= i < |fields| => FieldText(fields[i]))
  }

  /** The header value: the fields as `key=value`, joined by `"; "`. */
  function FormatValue(f: Formatter): string {
    JoinOn(FieldTexts(FormatFields(f)), FieldSeparator)
  }

  /** The content-type check shared by every formatter operation: the
      getter may throw, and anything but plain UTF-8 text is refused. */
  function RequirePlainText(m: Message): (r: Result<(), Failure>)
    ensures r.Ok? <==> ContentType(m) == Ok(PlainText)
    ensures r.Err? ==> (r.error == KeyNotFound <==> ContentType(m).Err?)
    ensures r.Err? ==> r.error == KeyNotFound || r.error == InvalidOperation
  {
    var ct :- ContentType(m);
    if ct != PlainText then Err(InvalidOperation) else Ok(())
  }

  /** `ApplyFormat(message)`: write this formatter's fields into the format
      header, replacing any earlier one. */
  function ApplyFormat(f: Formatter, m: Message): (r: Result<Message, Failure>)
    ensures r.Ok? <==> ContentType(m) == Ok(PlainText)
    ensures r.Err? ==> r.error == RequirePlainText(m).error
    ensures r.Ok? ==> Get(r.value.headers, FormatKey) == Some(FormatValue(f))
    ensures r.Ok? ==> forall k :: k != FormatKey ==> Get(r.value.headers, k) == Get(m.headers, k)
    ensures r.Ok? ==> r.value.body == m.body
  {
    var _ :- RequirePlainText(m);
    Ok(m.(headers := Set(m.headers, FormatKey, FormatValue(f))))
  }

  /** One field of the header: `s.Split('=')`, key and second part; a field
      without `=` has no second part and indexing it throws. */
  function ParseField(s: string): (r: Result<(string, string), Failure>)
    ensures r.Err? <==> '=' !in s
    ensures r.Err? ==> r.error == IndexOutOfRange
  {
    var parts := SplitChar(s, '=');
    if |parts| < 2 then
      assert '=' !in s by {
        assert IndexOf(s, ['=']) < 0;
        forall i | 0 <= i < |s| ensures s[i] != '=' {
          assert !OccursAt(s, ['='], i);
        }
      }
      Err(IndexOutOfRange)
    else
      assert '=' in s by {
        var i := IndexOf(s, ['=']);
        assert OccursAt(s, ['='], i);
        assert s[i] == s[i..i + 1][0];
      }
      Ok((parts[0], parts[1]))
  }

  /** A character the pattern `[\d\w]` matches, over ASCII: a letter, a
      digit or the underscore. */
  predicate IsWordChar(c: char) {
    'a' <= c <= 'z' || 'A' <= c <= 'Z' || '0' <= c <= '9' || c == '_'
  }

  /** The matches of `[\d\w]{2}` in `s`, left to right: two word
      characters at a time, skipping one character where no match starts. */
  function WordPairs(s: string): (ps: seq<string>)
    ensures forall i :: 0 <= i < |ps| ==> |ps[i]| == 2 && IsWordChar(ps[i][0]) && IsWordChar(ps[i][1])
    decreases |s|
  {
    if |s| < 2 then []
    else if IsWordChar(s[0]) && IsWordChar(s[1]) then [s[..2]] + WordPairs(s[2..])
    else WordPairs(s[1..])
  }

  /** `Convert.ToInt32(pair, 16)` for a two-digit pair. */
  function HexPair(hi: char, lo: char): (r: Option<byte>)
    ensures r.Some? <==> HexValue(hi).Some? && HexValue(lo).Some?
    ensures r.Some? ==> r.value == HexValue(hi).value * 16 + HexValue(lo).value
  {
    match (HexValue(hi), HexValue(lo))
    case (Some(h), Some(l)) => Some(h * 16 + l)
    case _ => None
  }

  /** The `CO` field read back into the colour `c`: `"0"` leaves it, and
      otherwise the matched pairs are reversed and read as `#RRGGBB` by
      `ColorTranslator.FromHtml`, where a pair that is not hex throws a
      `FormatException`. A value that does not match exactly three pairs
      leaves the colour as it was. */
  function ReadColor(c: Color, co: string): (r: Result<Color, Failure>)
    ensures co == "0" ==> r == Ok(c)
    ensures |WordPairs(co)| != 3 ==> r == Ok(c)
    ensures r.Err? ==> r.error == Format
    ensures co != "0" && |WordPairs(co)| == 3 ==>
      var ps := WordPairs(co);
      r.Ok? <==> HexPair(ps[0][0], ps[0][1]).Some? && HexPair(ps[1][0], ps[1][1]).Some? &&
                 HexPair(ps[2][0], ps[2][1]).Some?
    ensures co != "0" && |WordPairs(co)| == 3 && r.Ok? ==>
      var ps := WordPairs(co);
      r.value == Color(HexPair(ps[2][0], ps[2][1]).value, HexPair(ps[1][0], ps[1][1]).value,
                       HexPair(ps[0][0], ps[0][1]).value)
  {
    var ps := WordPairs(co);
    if co == "0" || |ps| != 3 then Ok(c)
    else
      var rgb := ps[2] + ps[1] + ps[0];
      assert rgb[0] == ps[2][0] && rgb[1] == ps[2][1] && rgb[2] == ps[1][0];
      assert rgb[3] == ps[1][1] && rgb[4] == ps[0][0] && rgb[5] == ps[0][1];
      match (HexPair(rgb[0], rgb[1]), HexPair(rgb[2], rgb[3]), HexPair(rgb[4], rgb[5]))
      case (Some(red), Some(green), Some(blue)) => Ok(Color(red, green, blue))
      case _ => Err(Format)
  }

  /** The formatter after reading fields: `FN` gives the font
      (percent-decoded), `EF` the four effects by letter, and `CO`, unless
      it is `"0"`, the colour. */
  function ReadFields(f: Formatter, fields: Dict<string, string>): (r: Result<Formatter, Failure>)
    ensures Get(fields, "CO").None? ==> r.Ok? && r.value.color == f.color
    ensures Get(fields, "CO").Some? ==>
      (r.Err? <==> ReadColor(f.color, Get(fields, "CO").value).Err?) &&
      (r.Ok? ==> r.value.color == ReadColor(f.color, Get(fields, "CO").value).value)
    ensures r.Err? ==> r.error == Format
    ensures r.Ok? && Get(fields, "FN").Some? ==> r.value.font == Unescape(Get(fields, "FN").value)
    ensures r.Ok? && Get(fields, "FN").None? ==> r.value.font == f.font
    ensures r.Ok? && Get(fields, "EF").Some? ==>
      && (r.value.bold <==> 'B' in Get(fields, "EF").value)
      && (r.value.italic <==> 'I' in Get(fields, "EF").value)
      && (r.value.underline <==> 'U' in Get(fields, "EF").value)
      && (r.value.strikethrough <==> 'S' in Get(fields, "EF").value)
    ensures r.Ok? && Get(fields, "EF").None? ==>
      var g := r.value;
      g.bold == f.bold && g.italic == f.italic && g.underline == f.underline && g.strikethrough == f.strikethrough
  {
    var f1 := match Get(fields, "FN")
      case Some(fn) => f.(font := Unescape(fn))
      case None => f;
    var f2 := match Get(fields, "EF")
      case Some(ef) => f1.(bold := 'B' in ef, italic := 'I' in ef, strikethrough := 'S' in ef, underline := 'U' in ef)
      case None => f1;
    match Get(fields, "CO")
    case Some(co) =>
      var color :- ReadColor(f2.color, co);
      Ok(f2.(color := color))
    case None => Ok(f2)
  }

  /** `CopyFormat(message)`: read this formatter's settings back from the
      message's format header; without the header nothing changes. */
  function CopyFormat(f: Formatter, m: Message): (r: Result<Formatter, Failure>)
    ensures RequirePlainText(m).Err? ==> r == Err(RequirePlainText(m).error)
    ensures RequirePlainText(m).Ok? && !ContainsKey(m.headers, FormatKey) ==> r == Ok(f)
    ensures RequirePlainText(m).Ok? && ContainsKey(m.headers, FormatKey) ==>
      var fields := ToDictionary([], SplitOn(Get(m.headers, FormatKey).value, FieldSeparator), ParseField);
      (fields.Err? ==> r == Err(fields.error)) && (fields.Ok? ==> r == ReadFields(f, fields.value))
  {
    var _ :- RequirePlainText(m);
    match Get(m.headers, FormatKey)
    case None => Ok(f)
    case Some(value) =>
      var fields :- ToDictionary([], SplitOn(value, FieldSeparator), ParseField);
      ReadFields(f, fields)
  }

  /** The static `CopyFormat(source, dest)`: both messages must be plain
      text (the source is checked first); the source's format header, if
      any, replaces the destination's, and nothing else changes. */
  function CopyFormatBetween(source: Message, dest: Message): (r: Result<Message, Failure>)
    ensures r.Ok? <==> ContentType(source) == Ok(PlainText) && ContentType(dest) == Ok(PlainText)
    ensures RequirePlainText(source).Err? ==> r == Err(RequirePlainText(source).error)
    ensures RequirePlainText(source).Ok? && RequirePlainText(dest).Err? ==> r == Err(RequirePlainText(dest).error)
    ensures r.Ok? && !ContainsKey(source.headers, FormatKey) ==> r.value == dest
    ensures r.Ok? && ContainsKey(source.headers, FormatKey) ==>
      && Get(r.value.headers, FormatKey) == Get(source.headers, FormatKey)
      && (forall k :: k != FormatKey ==> Get(r.value.headers, k) == Get(dest.headers, k))
      && r.value.body == dest.body
  {
    var _ :- RequirePlainText(source);
    var _ :- RequirePlainText(dest);
    match Get(source.headers, FormatKey)
    case None => Ok(dest)
    case Some(value) => Ok(dest.(headers := Set(dest.headers, FormatKey, value)))
  }

  // ------------------------------------------------------------- round trip

  /** No field text contains `;`, and every key and value is free of `=`. */
  lemma FormatFieldsAreDelimiterFree(f: Formatter)
    ensures forall i :: 0 <= i < 5 ==> '=' !in FormatFields(f)[i].0 && '=' !in FormatFields(f)[i].1
    ensures forall i :: 0 <= i < 5 ==> ';' !in FieldText(FormatFields(f)[i])
  {
    EscapeIsDelimiterFree(f.font);
    ColorCodeIsHex(f.color);
    var fs := FormatFields(f);
    forall i | 0 <= i < 5 ensures ';' !in FieldText(fs[i]) {
      assert FieldText(fs[i]) == fs[i].0 + "=" + fs[i].1;
      assert ';' !in fs[i].1;
    }
  }

  /** The colour code is made of hex digits only. */
  lemma ColorCodeIsHex(c: Color)
    ensures '=' !in ColorCode(c) && ';' !in ColorCode(c)
  {
    var s := ColorCode(c);
    forall i | 0 <= i < 6 ensures s[i] != '=' && s[i] != ';' {
      assert HexValue(s[i]).Some?;
    }
  }

  /** The fields read back from a header written by `ApplyFormat`. */
  lemma ReadFormatValue(f: Formatter)
    ensures ToDictionary([], SplitOn(FormatValue(f), FieldSeparator), ParseField) == Ok(FormatFields(f))
  {
    var fs := FormatFields(f);
    var ts := FieldTexts(fs);
    SplitFormatValue(f);
    ParseFormatFields(f);
    FormatFieldsDistinct(f);
    ToDictionaryOk([], ts, ParseField, fs);
    assert [] + fs == fs;
  }

  /** The header value splits into the field texts. */
  lemma SplitFormatValue(f: Formatter)
    ensures SplitOn(FormatValue(f), FieldSeparator) == FieldTexts(FormatFields(f))
  {
    var ts := FieldTexts(FormatFields(f));
    FormatFieldsAreDelimiterFree(f);
    forall i | 0 <= i < 5 ensures SeparatorFree(ts[i], FieldSeparator) && Absent(ts[i], FieldSeparator) {
      NoSemicolonSeparatorFree(ts[i]);
    }
    SplitJoin(ts, FieldSeparator);
  }

  /** Each field text reads back as its field. */
  lemma ParseFormatFields(f: Formatter)
    ensures forall i :: 0 <= i < 5 ==> ParseField(FieldTexts(FormatFields(f))[i]) == Ok(FormatFields(f)[i])
  {
    var fs := FormatFields(f);
    var ts := FieldTexts(fs);
    FormatFieldsAreDelimiterFree(f);
    forall i | 0 <= i < 5 ensures ParseField(ts[i]) == Ok(fs[i]) {
      SplitJoinChar([fs[i].0, fs[i].1], '=');
      assert JoinOn([fs[i].0, fs[i].1], ['=']) == ts[i];
    }
  }

  lemma FormatFieldsDistinct(f: Formatter)
    ensures DistinctKeys(FormatFields(f))
  {
    var fs := FormatFields(f);
    assert fs[0].0[0] == 'F' && fs[1].0[0] == 'E' && fs[2].0[1] == 'O' && fs[3].0[1] == 'S' && fs[4].0[0] == 'P';
  }

  /** Text without `;` never contains `"; "`. */
  lemma NoSemicolonSeparatorFree(s: string)
    requires ';' !in s
    ensures SeparatorFree(s, FieldSeparator) && Absent(s, FieldSeparator)
  {
    forall j | 0 <= j && j + 2 <= |s| ensures !OccursAt(s, FieldSeparator, j) {
      assert s[j..j + 2][0] == s[j];
    }
    SeparatorFreePair(s, FieldSeparator);
  }

  /** Applying a format leaves the content type as it was. */
  lemma ApplyKeepsContentType(f: Formatter, m: Message)
    requires ContentType(m) == Ok(PlainText)
    ensures ApplyFormat(f, m).Ok? && ContentType(ApplyFormat(f, m).value) == Ok(PlainText)
  {
    var m2 := ApplyFormat(f, m).value;
    assert Get(m2.headers, ContentTypeKey) == Get(m.headers, ContentTypeKey);
  }

  /** Reading back what `ApplyFormat` wrote reads exactly its fields. */
  lemma CopyFormatReadsFields(f: Formatter, g: Formatter, m: Message)
    requires ContentType(m) == Ok(PlainText)
    ensures ApplyFormat(f, m).Ok?
    ensures CopyFormat(g, ApplyFormat(f, m).value) == ReadFields(g, FormatFields(f))
  {
    ApplyKeepsContentType(f, m);
    ReadFormatValue(f);
  }

  /** The colour code splits into its three hex pairs. */
  lemma WordPairsOfColorCode(c: Color)
    ensures var s := ColorCode(c);
      WordPairs(s) == [s[0..2], s[2..4], s[4..6]]
  {
    var s := ColorCode(c);
    forall i | 0 <= i < 6 ensures IsWordChar(s[i]) {
      assert HexValue(s[i]).Some?;
    }
    var t, u := s[2..], s[4..];
    assert t[..2] == s[2..4] && t[2..] == u;
    assert u[..2] == s[4..6] && |u[2..]| == 0;
    assert WordPairs(u) == [s[4..6]];
    assert WordPairs(t) == [s[2..4]] + WordPairs(u);
    assert WordPairs(s) == [s[..2]] + WordPairs(t);
  }

  /** The colour `ApplyFormat` writes reads back as itself, whatever the
      reader's colour was. */
  lemma ReadColorCode(c: Color, g: Color)
    ensures ReadColor(g, ColorCode(c)) == Ok(c)
  {
    var s := ColorCode(c);
    WordPairsOfColorCode(c);
    assert s != "0";
    var ps := WordPairs(s);
    assert ps[0][0] == s[0] && ps[0][1] == s[1] && ps[1][0] == s[2];
    assert ps[1][1] == s[3] && ps[2][0] == s[4] && ps[2][1] == s[5];
  }

  /** The fields `ApplyFormat` writes give back the four effects, the
      colour, and the font when it is ASCII. */
  lemma ReadFormatFields(f: Formatter, g: Formatter)
    ensures ReadFields(g, FormatFields(f)).Ok?
    ensures var h := ReadFields(g, FormatFields(f)).value;
      && h.bold == f.bold && h.italic == f.italic && h.underline == f.underline
      && h.strikethrough == f.strikethrough
      && (IsAscii(f.font) ==> h.font == f.font)
      && h.color == f.color
  {
    var fs := FormatFields(f);
    FormatFieldsDistinct(f);
    assert Get(fs, "FN") == Some(Escape(f.font)) by {
      assert fs[0] == ("FN", Escape(f.font));
    }
    assert Get(fs, "EF") == Some(Effects(f)) by {
      assert fs[1] == ("EF", Effects(f));
    }
    assert Get(fs, "CO") == Some(ColorCode(f.color)) by {
      assert fs[2] == ("CO", ColorCode(f.color));
    }
    ReadColorCode(f.color, g.color);
    if IsAscii(f.font) {
      UnescapeEscape(f.font);
    }
  }

  /** Reading back what `ApplyFormat` wrote recovers the four effects and
      the colour exactly, and the font when it is ASCII. */
  lemma CopyFormatAfterApply(f: Formatter, g: Formatter, m: Message)
    requires ContentType(m) == Ok(PlainText)
    ensures ApplyFormat(f, m).Ok?
    ensures CopyFormat(g, ApplyFormat(f, m).value).Ok?
    ensures var h := CopyFormat(g, ApplyFormat(f, m).value).value;
      && h.bold == f.bold && h.italic == f.italic && h.underline == f.underline
      && h.strikethrough == f.strikethrough
      && (IsAscii(f.font) ==> h.font == f.font)
      && h.color == f.color
  {
    CopyFormatReadsFields(f, g, m);
    ReadFormatFields(f, g);
  }
}
