/** HTTP-POST binding (crates/gamlastan/src/bindings/post.rs; section 3.5 of
    SAML V2.0 Bindings). */
module PostBinding {
  import opened Wrappers
  import opened ByteStrings
  import opened BindingErrors
  import opened Encoding
  import opened HttpAdapter
  import opened RedirectBinding
  import opened RedirectGuarantees

  datatype PostDecoded = PostDecoded(xml: Bytes, isRequest: bool, relayState: Option<Bytes>)

  // ---- The auto-submit document -----------------------------------------

  function EscapeByte(c: Byte): Bytes {
    if c == '&' then "&amp;"
    else if c == '<' then "&lt;"
    else if c == '>' then "&gt;"
    else if c == '"' then "&quot;"
    else if c == '\'' then "&#x27;"
    else [c]
  }

  function HtmlEscaped(s: Bytes): Bytes {
    if s == [] then [] else EscapeByte(s[0]) + HtmlEscaped(s[1..])
  }

  method HtmlEscape(s: Bytes) returns (escaped: Bytes)
    ensures escaped == HtmlEscaped(s)
  {
    escaped := [];
    for i := 0 to |s|
      invariant escaped + HtmlEscaped(s[i..]) == HtmlEscaped(s)
    {
      assert s[i..][1..] == s[i + 1..];
      assert escaped + HtmlEscaped(s[i..]) == escaped + EscapeByte(s[i]) + HtmlEscaped(s[i + 1..]);
      escaped := escaped + EscapeByte(s[i]);
    }
    assert escaped + [] == escaped;
  }

  /** The fixed markup around the form: up to the opening quote of the action
      address, and from the submit button on. */
  datatype Page = Page(head: Bytes, tail: Bytes)
  {
    predicate Valid() {
      !(HIDDEN_INPUT.open <= ToLf(tail))
    }
  }

  const ACTION_END: Bytes := "\">\n"

  /** The markup around the name and the value of a field. */
  datatype Markup = Markup(open: Bytes, value: Bytes, end: Bytes)
  {
    predicate Valid() {
      && open != [] && value != [] && value[0] == '"' && end != [] && end[0] == '"'
      && CR !in open && CR !in value && CR !in end
    }
  }

  const FIELD_OPEN: Bytes := "<input type=\"hidden\" name=\""
  const FIELD_VALUE: Bytes := "\" value=\""
  const FIELD_END: Bytes := "\" />\n"
  const HIDDEN_INPUT := Markup(FIELD_OPEN, FIELD_VALUE, FIELD_END)
  type Field = (Bytes, Bytes)

  function HiddenField(mk: Markup, f: Field): Bytes {
    mk.open + f.0 + mk.value + HtmlEscaped(f.1) + mk.end
  }

  function HiddenFields(mk: Markup, fields: seq<Field>): Bytes {
    if fields == [] then [] else HiddenField(mk, fields[0]) + HiddenFields(mk, fields[1..])
  }

  /** The fields the form carries. */
  function FormFields(xml: Bytes, isRequest: bool, relayState: Option<Bytes>): seq<Field> {
    [(SamlName(isRequest), Base64Encode(xml))]
    + (if relayState.Some? then [(RELAY_STATE, relayState.value)] else [])
  }

  function FormBody(page: Page, destination: Bytes, fields: seq<Field>): Bytes {
    HtmlEscaped(destination) + (ACTION_END + (HiddenFields(HIDDEN_INPUT, fields) + page.tail))
  }

  method WriteField(html: Bytes, name: Bytes, value: Bytes) returns (out: Bytes)
    ensures out == html + HiddenField(HIDDEN_INPUT, (name, value))
  {
    var escaped := HtmlEscape(value);
    out := html + (HIDDEN_INPUT.open + name + HIDDEN_INPUT.value + escaped + HIDDEN_INPUT.end);
  }

  method PostEncode(page: Page, xml: Bytes, isRequest: bool, destination: Bytes, relayState: Option<Bytes>)
    returns (html: Bytes)
    ensures html == page.head + FormBody(page, destination, FormFields(xml, isRequest, relayState))
  {
    var b64 := Base64Encode(xml);
    var escapedDest := HtmlEscape(destination);
    html := page.head + escapedDest;
    html := html + ACTION_END;
    html := WriteField(html, SamlName(isRequest), b64);
    if relayState.Some? {
      html := WriteField(html, RELAY_STATE, relayState.value);
    }
    html := html + page.tail;
    Assemble(page, destination, xml, isRequest, relayState);
  }

  lemma Assemble(page: Page, destination: Bytes, xml: Bytes, isRequest: bool, relayState: Option<Bytes>)
    ensures page.head + HtmlEscaped(destination) + ACTION_END
            + HiddenField(HIDDEN_INPUT, (SamlName(isRequest), Base64Encode(xml)))
            + (if relayState.Some? then HiddenField(HIDDEN_INPUT, (RELAY_STATE, relayState.value)) else []) + page.tail
            == page.head + FormBody(page, destination, FormFields(xml, isRequest, relayState))
  {
    var message := (SamlName(isRequest), Base64Encode(xml));
    OneField(HIDDEN_INPUT, message);
    if relayState.Some? {
      HiddenFieldsSnoc(HIDDEN_INPUT, [message], (RELAY_STATE, relayState.value));
    } else {
      assert FormFields(xml, isRequest, relayState) == [message];
    }
    Reassociate(page.head, HtmlEscaped(destination), ACTION_END, HiddenField(HIDDEN_INPUT, message),
                if relayState.Some? then HiddenField(HIDDEN_INPUT, (RELAY_STATE, relayState.value)) else [], page.tail);
  }

  lemma Reassociate(a: Bytes, b: Bytes, c: Bytes, d: Bytes, e: Bytes, f: Bytes)
    ensures a + b + c + d + e + f == a + (b + (c + ((d + e) + f)))
    ensures a + b + c + d + f == a + (b + (c + (d + f)))
  {
  }

  lemma OneField(mk: Markup, f: Field)
    ensures HiddenFields(mk, [f]) == HiddenField(mk, f)
  {
    HiddenFieldsSnoc(mk, [], f);
    assert [] + [f] == [f] && [] + HiddenField(mk, f) == HiddenField(mk, f);
  }

  lemma {:induction false} HiddenFieldsSnoc(mk: Markup, fields: seq<Field>, last: Field)
    ensures HiddenFields(mk, fields + [last]) == HiddenFields(mk, fields) + HiddenField(mk, last)
  {
    if fields == [] {
      assert [last][1..] == [] && HiddenField(mk, last) + [] == HiddenField(mk, last);
      assert fields + [last] == [last];
    } else {
      assert (fields + [last])[1..] == fields[1..] + [last];
      HiddenFieldsSnoc(mk, fields[1..], last);
    }
  }

  // ---- A browser's reading of the form ------------------------------------

  const CR: Byte := 13 as char
  const LF: Byte := 10 as char

  /** What follows the line break at the front of a text that starts with CR. */
  function AfterCr(s: Bytes): Bytes
    requires s != []
  {
    if |s| > 1 && s[1] == LF then s[2..] else s[1..]
  }

  /** An HTML parser reads each of CR LF, CR and LF as LF. */
  function ToLf(s: Bytes): Bytes
    decreases |s|
  {
    if s == [] then []
    else if s[0] == CR then [LF] + ToLf(AfterCr(s))
    else [s[0]] + ToLf(s[1..])
  }

  /** Form submission writes each of them as CR LF. */
  function ToCrLf(s: Bytes): Bytes
    decreases |s|
  {
    if s == [] then []
    else if s[0] == CR then [CR, LF] + ToCrLf(AfterCr(s))
    else if s[0] == LF then [CR, LF] + ToCrLf(s[1..])
    else [s[0]] + ToCrLf(s[1..])
  }

  /** Replaces the five references the escaper writes. */
  function Unescaped(s: Bytes): Bytes
    decreases |s|
  {
    if s == [] then []
    else if "&amp;" <= s then ['&'] + Unescaped(s[5..])
    else if "&lt;" <= s then ['<'] + Unescaped(s[4..])
    else if "&gt;" <= s then ['>'] + Unescaped(s[4..])
    else if "&quot;" <= s then ['"'] + Unescaped(s[6..])
    else if "&#x27;" <= s then ['\''] + Unescaped(s[6..])
    else [s[0]] + Unescaped(s[1..])
  }

  const NUL: Byte := 0 as char

  /** What an HTML parser puts in the place of a NUL, in UTF-8. */
  const REPLACEMENT: Bytes := [0xEF as char, 0xBF as char, 0xBD as char]

  function NoNul(s: Bytes): Bytes {
    if s == [] then [] else (if s[0] == NUL then REPLACEMENT else [s[0]]) + NoNul(s[1..])
  }

  /** An attribute value runs up to the next raw quote. */
  function ReadAttribute(s: Bytes): (Bytes, Bytes) {
    var i := IndexOf(s, '"');
    (NoNul(Unescaped(s[..i])), s[i..])
  }

  /** The hidden fields at the front of `s`, in order. */
  function ReadFields(mk: Markup, s: Bytes): seq<Field>
    requires mk.Valid()
    decreases |s|
  {
    if !(mk.open <= s) then []
    else
      var (name, afterName) := ReadAttribute(s[|mk.open|..]);
      if !(mk.value <= afterName) then []
      else
        var (value, afterValue) := ReadAttribute(afterName[|mk.value|..]);
        if !(mk.end <= afterValue) then []
        else [(name, value)] + ReadFields(mk, afterValue[|mk.end|..])
  }

  lemma OpenHasNoCr()
    ensures FIELD_OPEN != [] && CR !in FIELD_OPEN
  {
  }

  lemma HiddenInputValid()
    ensures HIDDEN_INPUT.Valid()
  {
    OpenHasNoCr();
  }

  /** The action address and the hidden fields of a form body. */
  function ReadForm(s: Bytes): (Bytes, seq<Field>) {
    HiddenInputValid();
    var (action, rest) := ReadAttribute(s);
    (action, if ACTION_END <= rest then ReadFields(HIDDEN_INPUT, rest[|ACTION_END|..]) else [])
  }

  lemma UnescapeOne(c: Byte, rest: Bytes)
    ensures Unescaped(EscapeByte(c) + rest) == [c] + Unescaped(rest)
  {
    var s := EscapeByte(c) + rest;
    assert s[|EscapeByte(c)|..] == rest;
    assert s[0] == EscapeByte(c)[0];
    if c == '<' || c == '>' {
      assert s[1] == EscapeByte(c)[1];
    } else if c == '"' || c == '\'' {
      assert s[1] == EscapeByte(c)[1];
    }
  }

  /** Escaping is undone by reading the references back. */
  lemma {:induction false} EscapeRoundTrip(s: Bytes)
    ensures Unescaped(HtmlEscaped(s)) == s
  {
    if s != [] {
      UnescapeOne(s[0], HtmlEscaped(s[1..]));
      EscapeRoundTrip(s[1..]);
    }
  }

  predicate RawMarkup(c: Byte) {
    c == '"' || c == '\'' || c == '<' || c == '>'
  }

  /** Escaping leaves no raw quote or angle bracket. */
  lemma {:induction false} EscapedHasNoMarkup(s: Bytes)
    ensures forall c :: c in HtmlEscaped(s) ==> !RawMarkup(c)
  {
    if s != [] {
      EscapedHasNoMarkup(s[1..]);
      assert forall c :: c in EscapeByte(s[0]) ==> !RawMarkup(c);
    }
  }

  lemma ReadEscaped(s: Bytes, rest: Bytes)
    requires rest != [] && rest[0] == '"'
    ensures ReadAttribute(HtmlEscaped(s) + rest) == (NoNul(s), rest)
  {
    var e := HtmlEscaped(s);
    EscapeRoundTrip(s);
    EscapedHasNoMarkup(s);
    IndexOfConcat(e, rest, '"');
    assert (e + rest)[..|e|] == e && (e + rest)[|e|..] == rest;
  }

  lemma UnreservedEscape(c: Byte)
    ensures Unreserved(c) ==> EscapeByte(c) == [c]
  {
  }

  /** A name without markup is its own escape. */
  lemma {:induction false} PlainEscape(s: Bytes)
    requires forall c :: c in s ==> Unreserved(c)
    ensures HtmlEscaped(s) == s
  {
    if s != [] {
      UnreservedEscape(s[0]);
      PlainEscape(s[1..]);
      assert s == [s[0]] + s[1..];
    }
  }

  lemma {:induction false} WithoutNul(s: Bytes)
    requires NUL !in s
    ensures NoNul(s) == s
  {
    if s != [] {
      assert s[0] in s && s == [s[0]] + s[1..];
      WithoutNul(s[1..]);
    }
  }

  lemma ReadHiddenField(mk: Markup, f: Field, rest: Bytes)
    requires mk.Valid() && Plain(f.0)
    ensures ReadFields(mk, HiddenField(mk, f) + rest) == [(f.0, NoNul(f.1))] + ReadFields(mk, rest)
  {
    PlainEscape(f.0);
    PlainHasNoControls(f.0);
    WithoutNul(f.0);
    var afterValue := mk.end + rest;
    var afterName := mk.value + (HtmlEscaped(f.1) + afterValue);
    Nest(mk.open, f.0, mk.value, HtmlEscaped(f.1), mk.end, rest);
    ReadEscaped(f.0, afterName);
    ReadEscaped(f.1, afterValue);
    ReadFieldStep(mk, f.0, NoNul(f.1), afterName, HtmlEscaped(f.1) + afterValue, afterValue, rest);
  }

  lemma Nest(a: Bytes, b: Bytes, c: Bytes, d: Bytes, e: Bytes, f: Bytes)
    ensures a + b + c + d + e + f == a + (b + (c + (d + (e + f))))
    ensures a + b + c == a + (b + c)
  {
  }

  lemma ReadFieldStep(mk: Markup, name: Bytes, value: Bytes, afterName: Bytes, atValue: Bytes, afterValue: Bytes, rest: Bytes)
    requires mk.Valid() && afterName == mk.value + atValue && afterValue == mk.end + rest
    requires ReadAttribute(name + afterName) == (name, afterName)
    requires ReadAttribute(atValue) == (value, afterValue)
    ensures ReadFields(mk, mk.open + (name + afterName)) == [(name, value)] + ReadFields(mk, rest)
  {
    CutPrefix(mk.open, name + afterName);
    CutPrefix(mk.value, atValue);
    CutPrefix(mk.end, rest);
  }

  lemma CutPrefix(a: Bytes, b: Bytes)
    ensures a <= a + b && (a + b)[|a|..] == b
  {
  }

  lemma {:induction false} ReadHiddenFields(mk: Markup, fields: seq<Field>, tail: Bytes)
    requires mk.Valid() && !(mk.open <= tail) && forall f :: f in fields ==> Plain(f.0)
    ensures ReadFields(mk, HiddenFields(mk, fields) + tail) == NulFields(fields)
  {
    if fields == [] {
      assert [] + tail == tail;
    } else {
      var more := HiddenFields(mk, fields[1..]);
      ReadHiddenField(mk, fields[0], more + tail);
      Nest(HiddenField(mk, fields[0]), more, tail, [], [], []);
      ReadHiddenFields(mk, fields[1..], tail);
    }
  }

  function NulFields(fields: seq<Field>): seq<Field> {
    if fields == [] then [] else [(fields[0].0, NoNul(fields[0].1))] + NulFields(fields[1..])
  }

  function LfFields(fields: seq<Field>): seq<Field> {
    if fields == [] then [] else [(fields[0].0, ToLf(fields[0].1))] + LfFields(fields[1..])
  }

  lemma {:induction false} LfPrefix(a: Bytes, b: Bytes)
    requires CR !in a
    ensures ToLf(a + b) == a + ToLf(b)
  {
    if a == [] {
      assert a + b == b;
    } else {
      var rest := a[1..];
      assert a[0] in a && a == [a[0]] + rest && forall c :: c in rest ==> c in a;
      assert a + b == [a[0]] + (rest + b);
      LfOther(a[0], rest + b);
      LfPrefix(rest, b);
      Glue(a[0], rest, ToLf(b));
    }
  }

  lemma AfterCrConcat(a: Bytes, b: Bytes)
    requires a != [] && (b == [] || b[0] != LF)
    ensures AfterCr(a + b) == AfterCr(a) + b
  {
    if |a| > 1 {
      assert (a + b)[1] == a[1] && (a + b)[2..] == a[2..] + b;
    } else if b != [] {
      assert (a + b)[1] == b[0];
    }
    assert (a + b)[1..] == a[1..] + b;
  }

  lemma LfOther(c: Byte, rest: Bytes)
    requires c != CR
    ensures ToLf([c] + rest) == [c] + ToLf(rest)
  {
    assert ([c] + rest)[1..] == rest;
  }

  lemma {:induction false} LfConcat(a: Bytes, b: Bytes)
    requires b != [] && b[0] != LF
    ensures ToLf(a + b) == ToLf(a) + ToLf(b)
    decreases |a|
  {
    if a == [] {
      assert a + b == b;
    } else if a[0] == CR {
      AfterCrConcat(a, b);
      LfConcat(AfterCr(a), b);
      Glue(LF, ToLf(AfterCr(a)), ToLf(b));
    } else {
      assert a + b == [a[0]] + (a[1..] + b);
      LfOther(a[0], a[1..] + b);
      LfConcat(a[1..], b);
      Glue(a[0], ToLf(a[1..]), ToLf(b));
    }
  }

  lemma Glue(c: Byte, x: Bytes, y: Bytes)
    ensures [c] + (x + y) == [c] + x + y
  {
  }

  /** Reading line breaks and writing references do not get in each other's way. */
  lemma {:induction false} LfEscaped(s: Bytes)
    ensures ToLf(HtmlEscaped(s)) == HtmlEscaped(ToLf(s))
    decreases |s|
  {
    if s == [] {
    } else if s[0] == CR {
      LfEscaped(AfterCr(s));
      EscapedThenLf(s);
      LfThenEscaped(s);
    } else {
      LfEscaped(s[1..]);
      LfEscapedOther(s[0], s[1..]);
      assert s == [s[0]] + s[1..];
    }
  }

  lemma EscapedThenLf(s: Bytes)
    requires s != [] && s[0] == CR
    ensures ToLf(HtmlEscaped(s)) == [LF] + ToLf(HtmlEscaped(AfterCr(s)))
  {
    EscapedBreak(s);
    LfOfBreak(HtmlEscaped(s), HtmlEscaped(AfterCr(s)));
  }

  lemma LfThenEscaped(s: Bytes)
    requires s != [] && s[0] == CR
    ensures HtmlEscaped(ToLf(s)) == [LF] + HtmlEscaped(ToLf(AfterCr(s)))
  {
    LfOfBreak(s, AfterCr(s));
    EscapeHead(LF, ToLf(AfterCr(s)));
  }

  lemma LfOfBreak(s: Bytes, rest: Bytes)
    requires s != [] && s[0] == CR && rest == AfterCr(s)
    ensures ToLf(s) == [LF] + ToLf(rest)
  {
  }

  lemma LfEscapedOther(c: Byte, rest: Bytes)
    requires c != CR && ToLf(HtmlEscaped(rest)) == HtmlEscaped(ToLf(rest))
    ensures ToLf(HtmlEscaped([c] + rest)) == HtmlEscaped(ToLf([c] + rest))
  {
    EscapeNoCr(c);
    LfPrefix(EscapeByte(c), HtmlEscaped(rest));
    EscapeHead(c, rest);
    EscapeHead(c, ToLf(rest));
    LfOther(c, rest);
  }

  lemma EscapeNoCr(c: Byte)
    ensures c != CR ==> CR !in EscapeByte(c)
  {
  }

  lemma EscapeHead(c: Byte, rest: Bytes)
    ensures HtmlEscaped([c] + rest) == EscapeByte(c) + HtmlEscaped(rest)
  {
    assert ([c] + rest)[1..] == rest;
  }

  lemma EscapedBreak(s: Bytes)
    requires s != [] && s[0] == CR
    ensures HtmlEscaped(s) != [] && HtmlEscaped(s)[0] == CR && AfterCr(HtmlEscaped(s)) == HtmlEscaped(AfterCr(s))
  {
    assert s == [CR] + s[1..];
    EscapeHead(CR, s[1..]);
    if |s| > 1 {
      assert s[1..] == [s[1]] + s[2..];
      EscapeHead(s[1], s[2..]);
      BreakAt([CR], EscapeByte(s[1]), HtmlEscaped(s[2..]));
    }
  }

  lemma BreakAt(cr: Bytes, one: Bytes, rest: Bytes)
    requires cr == [CR] && one != [] && (one[0] == LF ==> one == [LF])
    ensures AfterCr(cr + (one + rest)) == if one[0] == LF then rest else one + rest
  {
    var s := cr + (one + rest);
    assert s[1] == one[0] && s[1..] == one + rest;
    if one == [LF] {
      assert s[2..] == rest;
    }
  }

  lemma {:induction false} LfHiddenFields(mk: Markup, fields: seq<Field>, tail: Bytes)
    requires mk.Valid() && forall f :: f in fields ==> Plain(f.0)
    ensures ToLf(HiddenFields(mk, fields) + tail) == HiddenFields(mk, LfFields(fields)) + ToLf(tail)
  {
    if fields == [] {
      assert [] + tail == tail && [] + ToLf(tail) == ToLf(tail);
    } else {
      var f, rest := fields[0], HiddenFields(mk, fields[1..]) + tail;
      assert f in fields;
      LfHiddenFields(mk, fields[1..], tail);
      LfHiddenField(mk, f, rest);
      Nest(HiddenField(mk, f), HiddenFields(mk, fields[1..]), tail, [], [], []);
      Nest(HiddenField(mk, (f.0, ToLf(f.1))), HiddenFields(mk, LfFields(fields[1..])), ToLf(tail), [], [], []);
      assert LfFields(fields)[1..] == LfFields(fields[1..]);
    }
  }

  lemma LfHiddenField(mk: Markup, f: Field, rest: Bytes)
    requires mk.Valid() && Plain(f.0)
    ensures ToLf(HiddenField(mk, f) + rest) == HiddenField(mk, (f.0, ToLf(f.1))) + ToLf(rest)
  {
    var afterValue := mk.end + rest;
    var atValue := HtmlEscaped(f.1) + afterValue;
    Nest(mk.open, f.0, mk.value, HtmlEscaped(f.1), mk.end, rest);
    Nest(mk.open, f.0, mk.value, HtmlEscaped(ToLf(f.1)), mk.end, ToLf(rest));
    PlainHasNoControls(f.0);
    LfPrefix(mk.open, f.0 + (mk.value + atValue));
    LfPrefix(f.0, mk.value + atValue);
    LfPrefix(mk.value, atValue);
    LfConcat(HtmlEscaped(f.1), afterValue);
    LfEscaped(f.1);
    LfPrefix(mk.end, rest);
  }

  lemma PlainHasNoControls(name: Bytes)
    requires Plain(name)
    ensures CR !in name && LF !in name && NUL !in name
  {
    assert !Unreserved(CR) && !Unreserved(LF) && !Unreserved(NUL);
  }

  /** A browser reads back from the document exactly the destination and the
      fields that were written, up to the spelling of line breaks and the
      replacement of NULs, for any destination and values. */
  lemma DocumentReadsBack(page: Page, destination: Bytes, xml: Bytes, isRequest: bool, relayState: Option<Bytes>)
    requires page.Valid()
    ensures var fields := FormFields(xml, isRequest, relayState);
            ReadForm(ToLf(FormBody(page, destination, fields)))
            == (NoNul(ToLf(destination)), NulFields(LfFields(fields)))
  {
    var fields := FormFields(xml, isRequest, relayState);
    SamlNamesArePlain();
    LfNames(fields);
    LfBody(page, destination, fields);
    ReadBody(ToLf(destination), LfFields(fields), ToLf(page.tail));
  }

  lemma {:induction false} LfNames(fields: seq<Field>)
    requires forall f :: f in fields ==> Plain(f.0)
    ensures forall f :: f in LfFields(fields) ==> Plain(f.0)
  {
    if fields != [] {
      assert fields[0] in fields;
      LfNames(fields[1..]);
    }
  }

  lemma LfBody(page: Page, destination: Bytes, fields: seq<Field>)
    requires forall f :: f in fields ==> Plain(f.0)
    ensures ToLf(FormBody(page, destination, fields))
            == HtmlEscaped(ToLf(destination)) + (ACTION_END + (HiddenFields(HIDDEN_INPUT, LfFields(fields)) + ToLf(page.tail)))
  {
    var inner := HiddenFields(HIDDEN_INPUT, fields) + page.tail;
    ActionEnds(inner);
    HiddenInputValid();
    LfConcat(HtmlEscaped(destination), ACTION_END + inner);
    LfEscaped(destination);
    LfPrefix(ACTION_END, inner);
    LfHiddenFields(HIDDEN_INPUT, fields, page.tail);
  }

  lemma ReadFormStep(s: Bytes, action: Bytes, inner: Bytes)
    requires ReadAttribute(s) == (action, ACTION_END + inner)
    ensures HIDDEN_INPUT.Valid() && ReadForm(s) == (action, ReadFields(HIDDEN_INPUT, inner))
  {
    HiddenInputValid();
    CutPrefix(ACTION_END, inner);
  }

  lemma ActionEnds(inner: Bytes)
    ensures ACTION_END + inner != [] && (ACTION_END + inner)[0] == '"'
  {
    assert (ACTION_END + inner)[0] == ACTION_END[0];
  }

  lemma ReadBody(destination: Bytes, fields: seq<Field>, tail: Bytes)
    requires !(HIDDEN_INPUT.open <= tail) && forall f :: f in fields ==> Plain(f.0)
    ensures ReadForm(HtmlEscaped(destination) + (ACTION_END + (HiddenFields(HIDDEN_INPUT, fields) + tail)))
            == (NoNul(destination), NulFields(fields))
  {
    var inner := HiddenFields(HIDDEN_INPUT, fields) + tail;
    ActionEnds(inner);
    ReadEscaped(destination, ACTION_END + inner);
    ReadFormStep(HtmlEscaped(destination) + (ACTION_END + inner), NoNul(destination), inner);
    ReadHiddenFields(HIDDEN_INPUT, fields, tail);
  }

  // ---- Form submission -----------------------------------------------------

  /** An encoder for application/x-www-form-urlencoded: which bytes it leaves
      alone, and whether it writes a space as `+`. */
  datatype FormEncoder = FormEncoder(keep: Byte -> bool, plusForSpace: bool)
  {
    ghost predicate Valid() {
      forall c: Byte :: keep(c) ==> c < 128 as char && c != '%' && c != '+' && c != '&' && c != '=' && c != ' '
    }

    function EncodeOne(c: Byte): Bytes {
      if keep(c) then [c]
      else if c == ' ' && plusForSpace then ['+']
      else ['%', HexUpper(c as int / 16), HexUpper(c as int % 16)]
    }

    function Encode(s: Bytes): Bytes {
      if s == [] then [] else EncodeOne(s[0]) + Encode(s[1..])
    }

    function EncodeField(f: Field): Bytes {
      Encode(f.0) + ['='] + Encode(f.1)
    }

    function EncodeFields(fields: seq<Field>): seq<Bytes> {
      if fields == [] then [] else [EncodeField(fields[0])] + EncodeFields(fields[1..])
    }

    function Submit(fields: seq<Field>): Bytes {
      Join(EncodeFields(CrLfFields(fields)), '&')
    }
  }

  /** The fields as they are submitted. */
  function CrLfFields(fields: seq<Field>): seq<Field> {
    if fields == [] then [] else [(ToCrLf(fields[0].0), ToCrLf(fields[0].1))] + CrLfFields(fields[1..])
  }

  // ---- Decoding -------------------------------------------------------------

  const POST_PARAMS: seq<Bytes> := [SAML_REQUEST, SAML_RESPONSE, RELAY_STATE]

  function ValidateUniquePostParams(body: Bytes): Result<(), BindingError> {
    match RawParamCount(body, SAML_REQUEST)
    case Err(e) => Err(e)
    case Ok(requests) => (match RawParamCount(body, SAML_RESPONSE)
      case Err(e) => Err(e)
      case Ok(responses) =>
        if requests > 0 && responses > 0 then Err(InvalidSamlParams)
        else CheckSingle(body, POST_PARAMS))
  }

  function PostSamlValue(request: HttpRequest): Result<(Bytes, bool), BindingError> {
    match (request.FormParam(SAML_REQUEST), request.FormParam(SAML_RESPONSE))
    case (Some(_), Some(_)) => Err(InvalidSamlParams)
    case (Some(v), None) => Ok((v, true))
    case (None, Some(v)) => Ok((v, false))
    case (None, None) => Err(MissingSamlParam(SAML_REQUEST))
  }

  /** Percent-decoded only if it holds an escape. */
  function DecodePostMessage(raw: Bytes): Result<Bytes, BindingError> {
    if '%' in raw then DecodeBase64Value(raw) else Base64Decode(raw)
  }

  /** Decoded only if it holds an escape or a plus. */
  function DecodePostRelay(raw: Option<Bytes>): Result<Option<Bytes>, BindingError> {
    match raw
    case None => Ok(None)
    case Some(s) =>
      if '%' in s || '+' in s then
        (match PercentDecoded(s) case Ok(v) => Ok(Some(v)) case Err(e) => Err(e))
      else Ok(Some(s))
  }

  function PostDecodeValues(message: Bytes, isRequest: bool, relay: Option<Bytes>): Result<PostDecoded, BindingError> {
    match DecodePostMessage(message)
    case Err(e) => Err(e)
    case Ok(xml) => (match DecodePostRelay(relay)
      case Err(e) => Err(e)
      case Ok(relayState) => Ok(PostDecoded(xml, isRequest, relayState)))
  }

  function PostDecode(request: HttpRequest): Result<PostDecoded, BindingError> {
    if !ValidUtf8(request.body) then Err(InvalidSamlParams)
    else match ValidateUniquePostParams(request.body)
      case Err(e) => Err(e)
      case Ok(_) => (match PostSamlValue(request)
        case Err(e) => Err(e)
        case Ok((message, isRequest)) => PostDecodeValues(message, isRequest, request.FormParam(RELAY_STATE)))
  }

  // ---- Round trip -----------------------------------------------------------

  lemma EncodeOneDecodes(e: FormEncoder, c: Byte, rest: Bytes)
    requires e.Valid()
    ensures DecodedBytes(e.EncodeOne(c) + rest) == Prepend([c], DecodedBytes(rest))
  {
    var s := e.EncodeOne(c) + rest;
    assert s[|e.EncodeOne(c)|..] == rest;
    if e.keep(c) {
      assert c != '%' && c != '+';
    } else if c != ' ' || !e.plusForSpace {
      var n := c as int;
      assert 0 <= n / 16 < 16 && n == n / 16 * 16 + n % 16;
      assert HexValue(s[1]) == Some(n / 16) && HexValue(s[2]) == Some(n % 16);
    }
  }

  lemma {:induction false} FormDecodes(e: FormEncoder, s: Bytes)
    requires e.Valid()
    ensures DecodedBytes(e.Encode(s)) == Ok(s)
  {
    if s != [] {
      EncodeOneDecodes(e, s[0], e.Encode(s[1..]));
      FormDecodes(e, s[1..]);
      assert s == [s[0]] + s[1..];
    }
  }

  /** Encoded text is ASCII and free of separators; when it holds neither an
      escape nor a plus it is the text itself. */
  lemma {:induction false} FormAlphabet(e: FormEncoder, s: Bytes)
    requires e.Valid()
    ensures forall c :: c in e.Encode(s) ==> c < 128 as char && c != '&' && c != '='
    ensures '%' !in e.Encode(s) && '+' !in e.Encode(s) ==> e.Encode(s) == s
    ensures '+' in e.Encode(s) ==> ' ' in s
  {
    if s != [] {
      FormAlphabet(e, s[1..]);
      var one, rest := e.EncodeOne(s[0]), e.Encode(s[1..]);
      assert forall c :: c in e.Encode(s) <==> c in one || c in rest;
      HexUpperAlphabet(s[0] as int / 16);
      HexUpperAlphabet(s[0] as int % 16);
      if !e.keep(s[0]) {
        assert one[0] in one;
      }
    }
  }

  lemma HexUpperAlphabet(n: int)
    requires 0 <= n < 16
    ensures var c := HexUpper(n); c < 128 as char && c != '&' && c != '=' && c != '+' && c != '%'
  {
  }

  lemma FormTextDecodes(e: FormEncoder, s: Bytes)
    requires e.Valid() && ValidUtf8(s)
    ensures PercentDecoded(e.Encode(s)) == Ok(s)
  {
    FormDecodes(e, s);
  }

  lemma EncodedBase64Decodes(e: FormEncoder, text: Bytes, xml: Bytes)
    requires e.Valid() && PercentDecoded(e.Encode(text)) == Ok(text) && Base64Decode(text) == Ok(xml)
    requires '%' !in e.Encode(text) ==> e.Encode(text) == text
    ensures DecodePostMessage(e.Encode(text)) == Ok(xml)
  {
  }

  lemma Base64HasNoSpace(xml: Bytes)
    ensures ' ' !in Base64Encode(xml)
  {
    Base64EncodeAlphabet(xml);
    assert !Base64Alphabet(' ');
  }

  /** Both branches of the message decoder give the message back. */
  lemma MessageDecodes(e: FormEncoder, xml: Bytes)
    requires e.Valid()
    ensures DecodePostMessage(e.Encode(Base64Encode(xml))) == Ok(xml)
  {
    Base64TextIsUtf8(xml);
    Base64RoundTrip(xml);
    Base64HasNoSpace(xml);
    FormTextDecodes(e, Base64Encode(xml));
    FormAlphabet(e, Base64Encode(xml));
    EncodedBase64Decodes(e, Base64Encode(xml), xml);
  }

  /** Both branches of the RelayState decoder give the value back. */
  lemma RelayDecodes(e: FormEncoder, relay: Bytes)
    requires e.Valid() && ValidUtf8(relay)
    ensures DecodePostRelay(Some(e.Encode(relay))) == Ok(Some(relay))
  {
    FormTextDecodes(e, relay);
    FormAlphabet(e, relay);
  }

  /** An encoded field is split back at its first `=`. */
  lemma FieldSplits(e: FormEncoder, f: Field)
    requires e.Valid()
    ensures var p := e.EncodeField(f); KeyOf(p) == e.Encode(f.0) && ValueOf(p) == e.Encode(f.1)
  {
    var p, key, value := e.EncodeField(f), e.Encode(f.0), e.Encode(f.1);
    FormAlphabet(e, f.0);
    assert '=' !in key;
    IndexOfConcat(key, ['='] + value, '=');
    assert p == key + (['='] + value);
    assert p[..|key|] == key && p[|key| + 1..] == value;
  }

  lemma FieldIsClean(e: FormEncoder, f: Field)
    requires e.Valid()
    ensures Clean(e.EncodeField(f))
  {
    var key, value := e.Encode(f.0), e.Encode(f.1);
    FormAlphabet(e, f.0);
    FormAlphabet(e, f.1);
    assert e.EncodeField(f) == key + ['='] + value;
    ConcatClean(key, value);
  }

  lemma ConcatClean(key: Bytes, value: Bytes)
    requires forall c :: c in key || c in value ==> c < 128 as char && c != '&'
    ensures Clean(key + ['='] + value)
  {
    var p := key + ['='] + value;
    forall i | 0 <= i < |p|
      ensures p[i] < 128 as char && p[i] != '&'
    {
      assert p[i] in key || p[i] == '=' || p[i] in value;
    }
  }

  lemma FieldPair(e: FormEncoder, f: Field)
    requires e.Valid() && Plain(f.0)
    ensures var p := e.EncodeField(f);
            Clean(p) && HasKey(p, f.0) && ValueOf(p) == e.Encode(f.1)
  {
    FieldIsClean(e, f);
    FieldSplits(e, f);
    PlainDecodesToItself(f.0);
    FormTextDecodes(e, f.0);
  }

  /** The three pairs a submitted form carries. */
  function SubmittedPairs(e: FormEncoder, xml: Bytes, isRequest: bool, relayState: Option<Bytes>): Carried {
    var message := e.EncodeField((SamlName(isRequest), Base64Encode(xml)));
    Carried(if isRequest then Some(message) else None, if isRequest then None else Some(message),
            if relayState.Some? then Some(e.EncodeField((RELAY_STATE, relayState.value))) else None, None, None)
  }

  predicate Clean(pair: Bytes) {
    pair != [] && '&' !in pair && Ascii(pair)
  }

  lemma SubmittedPairsClean(e: FormEncoder, xml: Bytes, isRequest: bool, relayState: Option<Bytes>)
    requires e.Valid()
    ensures var c := SubmittedPairs(e, xml, isRequest, relayState);
            WellKeyed(c) && Parts(c) != [] && forall p :: p in Parts(c) ==> Clean(p)
  {
    var c := SubmittedPairs(e, xml, isRequest, relayState);
    SamlNamesArePlain();
    FieldPair(e, (SamlName(isRequest), Base64Encode(xml)));
    if relayState.Some? {
      FieldPair(e, (RELAY_STATE, relayState.value));
    }
    forall p
      ensures p in Parts(c) ==> Clean(p)
    {
      InParts(c, p);
    }
    InParts(c, e.EncodeField((SamlName(isRequest), Base64Encode(xml))));
  }

  lemma CleanBody(parts: seq<Bytes>)
    requires parts != [] && forall p :: p in parts ==> Clean(p)
    ensures var body := Join(parts, '&'); Pairs(body) == [] + parts && ValidUtf8(body) && body != []
  {
    PairsOfJoin(parts);
    assert [] + parts == parts;
    JoinAscii(parts);
    AsciiIsUtf8(Join(parts, '&'));
    PairsOfOne([]);
  }

  lemma OneEncodedField(e: FormEncoder, f: Field)
    ensures e.EncodeFields([f]) == [e.EncodeField(f)]
  {
    assert [f][1..] == [];
  }

  lemma FieldsAreParts(e: FormEncoder, xml: Bytes, isRequest: bool, relayState: Option<Bytes>)
    ensures e.EncodeFields(FormFields(xml, isRequest, relayState)) == Parts(SubmittedPairs(e, xml, isRequest, relayState))
  {
    var c := SubmittedPairs(e, xml, isRequest, relayState);
    var message: Field := (SamlName(isRequest), Base64Encode(xml));
    var fields := FormFields(xml, isRequest, relayState);
    assert Listed(c.request) + Listed(c.response) == [e.EncodeField(message)];
    if relayState.Some? {
      var relay: Field := (RELAY_STATE, relayState.value);
      OneEncodedField(e, relay);
      assert fields == [message, relay] && fields[1..] == [relay];
    } else {
      OneEncodedField(e, message);
      assert fields == [message];
    }
  }

  lemma {:induction false} JoinAscii(parts: seq<Bytes>)
    requires forall p :: p in parts ==> Ascii(p)
    ensures Ascii(Join(parts, '&'))
  {
    if |parts| == 1 {
      assert parts[0] in parts;
    } else if |parts| > 1 {
      assert parts[0] in parts;
      JoinAscii(parts[1..]);
    }
  }

  lemma PostUniqueness(body: Bytes)
    requires ValidateUniqueParams(body).Ok?
    ensures ValidateUniquePostParams(body).Ok?
  {
    UniquenessMeaning(body);
    ReadersAgree(Pairs(body), SAML_REQUEST);
    ReadersAgree(Pairs(body), SAML_RESPONSE);
    PostParamList();
    CheckSingleMeaning(body, POST_PARAMS);
  }

  lemma PostParamList()
    ensures forall name :: name in POST_PARAMS ==> name in SAML_PARAMS
  {
    SamlParamList();
  }

  // ---- Line breaks on the way -------------------------------------------------

  lemma {:induction false} WithoutBreaks(s: Bytes)
    requires CR !in s && LF !in s
    ensures ToCrLf(s) == s && ToLf(s) == s
  {
    if s != [] {
      assert s[0] in s && s == [s[0]] + s[1..];
      WithoutBreaks(s[1..]);
    }
  }

  /** Every CR is followed and every LF preceded by the other. */
  predicate PairedBreaks(s: Bytes) {
    && (forall i :: 0 <= i < |s| && s[i] == CR ==> i + 1 < |s| && s[i + 1] == LF)
    && (forall i :: 0 <= i < |s| && s[i] == LF ==> i > 0 && s[i - 1] == CR)
  }

  lemma PairedAfterBreak(rest: Bytes)
    ensures PairedBreaks([CR, LF] + rest) <==> PairedBreaks(rest)
  {
    PairedSuffix([CR, LF], rest);
    var s := [CR, LF] + rest;
    if rest != [] && rest[0] == LF {
      assert s[2] == LF && s[2 - 1] == LF;
    }
  }

  lemma PairedAfterOther(c: Byte, rest: Bytes)
    requires c != CR && c != LF
    ensures PairedBreaks([c] + rest) <==> PairedBreaks(rest)
  {
    PairedSuffix([c], rest);
    var s := [c] + rest;
    if rest != [] && rest[0] == LF {
      assert s[1] == LF && s[1 - 1] == c;
    }
  }

  /** After a front that is paired on its own the rest decides. */
  lemma PairedSuffix(front: Bytes, rest: Bytes)
    requires PairedBreaks(front)
    ensures PairedBreaks(rest) ==> PairedBreaks(front + rest)
    ensures PairedBreaks(front + rest) && (rest == [] || rest[0] != LF) ==> PairedBreaks(rest)
  {
    var s, n := front + rest, |front|;
    assert forall i :: 0 <= i < n ==> s[i] == front[i];
    assert forall i :: n <= i < |s| ==> s[i] == rest[i - n];
    if PairedBreaks(s) && (rest == [] || rest[0] != LF) {
      forall i | 0 <= i < |rest| && rest[i] == CR
        ensures i + 1 < |rest| && rest[i + 1] == LF
      {
        assert s[n + i] == CR;
        assert s[n + i + 1] == LF;
      }
      forall i | 0 <= i < |rest| && rest[i] == LF
        ensures i > 0 && rest[i - 1] == CR
      {
        assert s[n + i] == LF;
        assert s[n + i - 1] == CR;
      }
    }
  }

  lemma {:induction false} UnchangedExactly(s: Bytes)
    ensures ToCrLf(s) == s <==> PairedBreaks(s)
    decreases |s|
  {
    if s == [] {
    } else if s[0] == CR && |s| > 1 && s[1] == LF {
      assert s == [CR, LF] + s[2..];
      PairedAfterBreak(s[2..]);
      UnchangedExactly(s[2..]);
      assert ToCrLf(s)[2..] == ToCrLf(s[2..]);
    } else if s[0] == CR {
      assert ToCrLf(s)[1] == LF;
    } else if s[0] != LF {
      assert s == [s[0]] + s[1..];
      PairedAfterOther(s[0], s[1..]);
      UnchangedExactly(s[1..]);
      assert ToCrLf(s)[1..] == ToCrLf(s[1..]);
    }
  }

  lemma {:induction false} CrLfPrefix(a: Bytes, b: Bytes)
    requires CR !in a && LF !in a
    ensures ToCrLf(a + b) == a + ToCrLf(b)
  {
    if a == [] {
      assert a + b == b;
    } else {
      var rest := a[1..];
      assert a[0] in a && a == [a[0]] + rest && forall c :: c in rest ==> c in a;
      assert a + b == [a[0]] + (rest + b);
      CrLfHead(a[0], rest + b);
      CrLfPrefix(rest, b);
      Glue(a[0], rest, ToCrLf(b));
    }
  }

  /** A scalar value of several bytes holds no line break. */
  lemma LongScalar(s: Bytes, n: nat)
    requires ScalarLength(s) == n > 1
    ensures ValidUtf8(s[..n]) && CR !in s[..n] && LF !in s[..n]
  {
    var a := s[..n];
    assert forall i :: 0 <= i < n ==> a[i] == s[i] && a[i] as int >= 0x80;
    assert ScalarLength(a) == n && a[n..] == [];
  }

  lemma {:induction false} BreaksKeepUtf8(s: Bytes)
    requires ValidUtf8(s)
    ensures ValidUtf8(ToCrLf(s))
    decreases |s|
  {
    if s != [] {
      var n := ScalarLength(s);
      if n > 1 {
        LongScalar(s, n);
        assert s == s[..n] + s[n..];
        CrLfPrefix(s[..n], s[n..]);
        BreaksKeepUtf8(s[n..]);
        Utf8Concat(s[..n], ToCrLf(s[n..]));
      } else {
        var rest := if s[0] == CR then AfterCr(s) else s[1..];
        if s[0] == CR && |s| > 1 && s[1] == LF {
          assert s[1..][1..] == s[2..] && s[1..][0] == LF;
        }
        BreaksKeepUtf8(rest);
        var head := if s[0] == CR || s[0] == LF then [CR, LF] else [s[0]];
        AsciiIsUtf8(head);
        Utf8Concat(head, ToCrLf(rest));
      }
    }
  }

  lemma {:induction false} NulPrefix(a: Bytes, b: Bytes)
    requires NUL !in a
    ensures NoNul(a + b) == a + NoNul(b)
  {
    if a == [] {
      assert a + b == b;
    } else {
      var rest := a[1..];
      assert a[0] in a && a == [a[0]] + rest && forall c :: c in rest ==> c in a;
      assert a + b == [a[0]] + (rest + b);
      NulHead(a[0], rest + b);
      NulPrefix(rest, b);
      Glue(a[0], rest, NoNul(b));
    }
  }

  lemma NulHead(c: Byte, rest: Bytes)
    ensures NoNul([c] + rest) == (if c == NUL then REPLACEMENT else [c]) + NoNul(rest)
  {
    assert ([c] + rest)[1..] == rest;
  }

  lemma CrLfHead(c: Byte, rest: Bytes)
    requires c != CR && c != LF
    ensures ToCrLf([c] + rest) == [c] + ToCrLf(rest)
  {
    assert ([c] + rest)[1..] == rest;
  }

  lemma CrLfBreak(rest: Bytes)
    ensures ToCrLf([LF] + rest) == [CR, LF] + ToCrLf(rest)
  {
    assert ([LF] + rest)[1..] == rest;
  }

  /** What the parser and the submission do together: line breaks are spelled
      CR LF and NULs are replaced. */
  lemma {:induction false} BrowserRewrites(s: Bytes)
    ensures ToCrLf(NoNul(ToLf(s))) == NoNul(ToCrLf(s))
    decreases |s|
  {
    if s == [] {
    } else {
      var rest := if s[0] == CR then AfterCr(s) else s[1..];
      BrowserRewrites(rest);
      if s[0] == CR || s[0] == LF {
        BreakRewrites(ToLf(rest), ToCrLf(rest));
      } else {
        ByteRewrites(s[0], ToLf(rest), ToCrLf(rest));
      }
    }
  }

  lemma BreakRewrites(lf: Bytes, crLf: Bytes)
    requires ToCrLf(NoNul(lf)) == NoNul(crLf)
    ensures ToCrLf(NoNul([LF] + lf)) == NoNul([CR, LF] + crLf)
  {
    NulHead(LF, lf);
    CrLfBreak(NoNul(lf));
    NulPrefix([CR, LF], crLf);
  }

  lemma ByteRewrites(c: Byte, lf: Bytes, crLf: Bytes)
    requires c != CR && c != LF && ToCrLf(NoNul(lf)) == NoNul(crLf)
    ensures ToCrLf(NoNul([c] + lf)) == NoNul([c] + crLf)
  {
    NulHead(c, lf);
    NulHead(c, crLf);
    if c == NUL {
      CrLfPrefix(REPLACEMENT, NoNul(lf));
    } else {
      CrLfHead(c, NoNul(lf));
    }
  }

  lemma ReplacementIsUtf8()
    ensures ValidUtf8(REPLACEMENT)
  {
    assert ScalarLength(REPLACEMENT) == 3 && REPLACEMENT[3..] == [];
  }

  lemma {:induction false} NulKeepsUtf8(s: Bytes)
    requires ValidUtf8(s)
    ensures ValidUtf8(NoNul(s))
    decreases |s|
  {
    if s != [] {
      var n := ScalarLength(s);
      NulKeepsUtf8(s[n..]);
      var head := s[..n];
      assert s == head + s[n..];
      if s[0] == NUL {
        ReplacementIsUtf8();
        Utf8Concat(REPLACEMENT, NoNul(s[1..]));
      } else {
        ScalarAlone(s, n);
        NulPrefix(head, s[n..]);
        Utf8Concat(head, NoNul(s[n..]));
      }
    }
  }

  lemma ScalarAlone(s: Bytes, n: nat)
    requires ScalarLength(s) == n > 0 && s[0] != NUL
    ensures ValidUtf8(s[..n]) && NUL !in s[..n]
  {
    var a := s[..n];
    assert forall i :: 0 <= i < n ==> a[i] == s[i];
    assert ScalarLength(a) == n && a[n..] == [];
  }

  function RelayReceived(relayState: Option<Bytes>): Option<Bytes> {
    match relayState case None => None case Some(r) => Some(NoNul(ToCrLf(r)))
  }

  lemma {:induction false} NoNulHasNone(s: Bytes)
    ensures NUL !in NoNul(s)
  {
    if s != [] {
      NoNulHasNone(s[1..]);
    }
  }

  lemma {:induction false} CrLfKeepsNul(s: Bytes)
    ensures NUL in s <==> NUL in ToCrLf(s)
    decreases |s|
  {
    if s != [] {
      var rest := if s[0] == CR then AfterCr(s) else s[1..];
      CrLfKeepsNul(rest);
      var front := if s[0] == CR then s[..|s| - |rest|] else [s[0]];
      assert s == front + rest;
    }
  }

  lemma RewritingKeepsExactly(s: Bytes)
    ensures NoNul(ToCrLf(s)) == s <==> PairedBreaks(s) && NUL !in s
  {
    UnchangedExactly(s);
    CrLfKeepsNul(s);
    NoNulHasNone(ToCrLf(s));
    if NUL !in s {
      WithoutNul(ToCrLf(s));
    }
  }

  /** Only the RelayState can hold line breaks or NULs. */
  lemma ThroughBrowser(xml: Bytes, isRequest: bool, relayState: Option<Bytes>)
    ensures CrLfFields(NulFields(LfFields(FormFields(xml, isRequest, relayState))))
            == FormFields(xml, isRequest, RelayReceived(relayState))
  {
    var message: Field := (SamlName(isRequest), Base64Encode(xml));
    MessageUnchanged(xml, isRequest);
    if relayState.Some? {
      SamlNamesArePlain();
      PlainUnchanged(RELAY_STATE);
      BrowserRewrites(relayState.value);
      BrowserOfTwo(message, (RELAY_STATE, relayState.value));
    } else {
      BrowserOfOne(message);
    }
  }

  lemma PlainUnchanged(name: Bytes)
    requires Plain(name)
    ensures ToCrLf(name) == name
  {
    PlainHasNoControls(name);
    WithoutBreaks(name);
  }

  lemma MessageUnchanged(xml: Bytes, isRequest: bool)
    ensures ToCrLf(SamlName(isRequest)) == SamlName(isRequest)
    ensures ToCrLf(NoNul(ToLf(Base64Encode(xml)))) == Base64Encode(xml)
  {
    SamlNamesArePlain();
    PlainUnchanged(SamlName(isRequest));
    Base64EncodeAlphabet(xml);
    assert !Base64Alphabet(CR) && !Base64Alphabet(LF) && !Base64Alphabet(NUL);
    WithoutBreaks(Base64Encode(xml));
    WithoutNul(Base64Encode(xml));
  }

  function Browsed(f: Field): Field {
    (ToCrLf(f.0), ToCrLf(NoNul(ToLf(f.1))))
  }

  lemma BrowserOfOne(f: Field)
    ensures CrLfFields(NulFields(LfFields([f]))) == [Browsed(f)]
  {
    assert LfFields([f]) == [(f.0, ToLf(f.1))];
    assert NulFields([(f.0, ToLf(f.1))]) == [(f.0, NoNul(ToLf(f.1)))];
  }

  lemma BrowserOfTwo(f: Field, g: Field)
    ensures CrLfFields(NulFields(LfFields([f] + [g]))) == [Browsed(f)] + [Browsed(g)]
  {
    BrowserOfOne(g);
    assert ([f] + [g])[1..] == [g];
    assert LfFields([f] + [g])[1..] == LfFields([g]);
    assert NulFields(LfFields([f] + [g]))[1..] == NulFields(LfFields([g]));
  }

  /** End to end: any page, destination and values are written into a document,
      read back by a browser and submitted by any conforming form encoder; the
      receiver gets the message, its direction and the RelayState that were sent,
      with every line break of the RelayState spelled CR LF and every NUL
      replaced. */
  lemma PostRoundTrip(page: Page, e: FormEncoder, r: Incoming, destination: Bytes,
                      xml: Bytes, isRequest: bool, relayState: Option<Bytes>)
    requires page.Valid() && e.Valid()
    requires relayState.Some? ==> ValidUtf8(relayState.value)
    ensures var document := FormBody(page, destination, FormFields(xml, isRequest, relayState));
            PostDecode(PostRequest(r, e.Submit(ReadForm(ToLf(document)).1)))
            == Ok(PostDecoded(xml, isRequest, RelayReceived(relayState)))
  {
    DocumentReadsBack(page, destination, xml, isRequest, relayState);
    ThroughBrowser(xml, isRequest, relayState);
    if relayState.Some? {
      BreaksKeepUtf8(relayState.value);
      NulKeepsUtf8(ToCrLf(relayState.value));
    }
    SubmissionDecodes(e, r, xml, isRequest, RelayReceived(relayState));
  }

  /** Everything comes back unchanged exactly when the RelayState holds no NUL and
      every line break of it is a CR LF already. */
  lemma PostReturnsExactly(page: Page, e: FormEncoder, r: Incoming, destination: Bytes,
                           xml: Bytes, isRequest: bool, relayState: Option<Bytes>)
    requires page.Valid() && e.Valid()
    requires relayState.Some? ==> ValidUtf8(relayState.value)
    ensures var document := FormBody(page, destination, FormFields(xml, isRequest, relayState));
            PostDecode(PostRequest(r, e.Submit(ReadForm(ToLf(document)).1))) == Ok(PostDecoded(xml, isRequest, relayState))
            <==> (relayState.Some? ==> PairedBreaks(relayState.value) && NUL !in relayState.value)
  {
    PostRoundTrip(page, e, r, destination, xml, isRequest, relayState);
    if relayState.Some? {
      RewritingKeepsExactly(relayState.value);
    }
  }

  /** For one, a single line feed comes back as CR LF. */
  lemma LineFeedComesBackLonger(page: Page, e: FormEncoder, r: Incoming, destination: Bytes, xml: Bytes, isRequest: bool)
    requires page.Valid() && e.Valid()
    ensures var document := FormBody(page, destination, FormFields(xml, isRequest, Some([LF])));
            PostDecode(PostRequest(r, e.Submit(ReadForm(ToLf(document)).1)))
            == Ok(PostDecoded(xml, isRequest, Some([CR, LF])))
  {
    assert ScalarLength([LF]) == 1 && [LF][1..] == [];
    PostRoundTrip(page, e, r, destination, xml, isRequest, Some([LF]));
    LineFeedRewritten();
  }

  lemma LineFeedRewritten()
    ensures NoNul(ToCrLf([LF])) == [CR, LF]
  {
    CrLfBreak([]);
    assert [LF] + [] == [LF] && [CR, LF] + [] == [CR, LF];
    WithoutNul([CR, LF]);
  }

  const BUTTON_START: Bytes := "<noscript><input type="
  const BUTTON_END: Bytes := "\"submit\" value=\"Continue\" />"
  const FORM_END: Bytes := "</noscript>\n</form>\n"
  const PAGE_END: Bytes := "</body>\n</html>"

  /** What the source writes after the hidden fields. */
  const FORM_TAIL: Bytes := BUTTON_START + (BUTTON_END + (FORM_END + PAGE_END))

  lemma LfStart(s: Bytes)
    requires |s| > 1 && s[0] != CR && s[1] != CR
    ensures |ToLf(s)| > 1 && ToLf(s)[1] == s[1]
  {
    assert s[1..][0] == s[1];
  }

  lemma TailStarts()
    ensures |FORM_TAIL| > 1 && FORM_TAIL[0] == '<' && FORM_TAIL[1] == 'n'
  {
    assert |BUTTON_START| > 1 && BUTTON_START[0] == '<' && BUTTON_START[1] == 'n';
  }

  lemma SecondByteDiffers(a: Bytes, b: Bytes)
    requires |a| > 1 && |b| > 1 && a[1] != b[1]
    ensures !(a <= b)
  {
  }

  /** The page of the source is one the theorems are about. */
  lemma SourcePageIsValid(head: Bytes)
    ensures Page(head, FORM_TAIL).Valid()
  {
    TailStarts();
    LfStart(FORM_TAIL);
    assert FIELD_OPEN[1] == 'i';
    SecondByteDiffers(FIELD_OPEN, ToLf(FORM_TAIL));
  }

  lemma SubmissionDecodes(e: FormEncoder, r: Incoming, xml: Bytes, isRequest: bool, relayState: Option<Bytes>)
    requires e.Valid() && (relayState.Some? ==> ValidUtf8(relayState.value))
    ensures PostDecode(PostRequest(r, Join(e.EncodeFields(FormFields(xml, isRequest, relayState)), '&')))
            == Ok(PostDecoded(xml, isRequest, relayState))
  {
    var body := Join(e.EncodeFields(FormFields(xml, isRequest, relayState)), '&');
    var c := SubmittedPairs(e, xml, isRequest, relayState);
    SubmittedPairsClean(e, xml, isRequest, relayState);
    FieldsAreParts(e, xml, isRequest, relayState);
    CleanBody(Parts(c));
    PartsAreCarried(body, [], c);
    PostUniqueness(body);
    FormParamsAreCarried(r, body, c);
    SubmittedValuesDecode(e, xml, isRequest, relayState);
  }

  lemma FormParamsAreCarried(r: Incoming, body: Bytes, c: Carried)
    requires ValidateUniqueParams(body).Ok? && CarriedBy(Pairs(body)) == c && body != [] && ValidUtf8(body)
    ensures var request := PostRequest(r, body);
            && request.FormParam(SAML_REQUEST) == RawValue(c.request)
            && request.FormParam(SAML_RESPONSE) == RawValue(c.response)
            && request.FormParam(RELAY_STATE) == RawValue(c.relay)
  {
    UniquenessMeaning(body);
    ReadersAgree(Pairs(body), SAML_REQUEST);
    ReadersAgree(Pairs(body), SAML_RESPONSE);
    ReadersAgree(Pairs(body), RELAY_STATE);
  }

  lemma SubmittedValuesDecode(e: FormEncoder, xml: Bytes, isRequest: bool, relayState: Option<Bytes>)
    requires e.Valid() && (relayState.Some? ==> ValidUtf8(relayState.value))
    ensures var c := SubmittedPairs(e, xml, isRequest, relayState);
            var message := if isRequest then c.request.value else c.response.value;
            PostDecodeValues(ValueOf(message), isRequest, RawValue(c.relay)) == Ok(PostDecoded(xml, isRequest, relayState))
  {
    SamlNamesArePlain();
    FieldPair(e, (SamlName(isRequest), Base64Encode(xml)));
    MessageDecodes(e, xml);
    if relayState.Some? {
      FieldPair(e, (RELAY_STATE, relayState.value));
      RelayDecodes(e, relayState.value);
    }
  }
}
