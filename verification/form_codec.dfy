/** The credential form decoder of the provisioning portal: an
    `application/x-www-form-urlencoded` body is cut into `&`-separated
    tokens (empty tokens skipped), each token is split at its first `=`,
    `+` in the value becomes a space (and nothing else is decoded), and the
    values of `ssid` and `password` are copied into fixed-size buffers. */
module FormCodec {
  import opened Util

  /** Sizes of the `ssid` and `password` buffers, terminating NUL included. */
  const SSID_BUFFER: nat := 32
  const PASSWORD_BUFFER: nat := 64

  const AMP: byte := 38
  const EQ: byte := 61
  const PLUS: byte := 43
  const SPACE: byte := 32

  const SSID_NAME: Bytes := Ascii("ssid")
  const PASSWORD_NAME: Bytes := Ascii("password")

  /** The credential record; `received` says a `/save` body has been parsed. */
  datatype WifiConfig = WifiConfig(ssid: Bytes, password: Bytes, received: bool)

  const EmptyConfig := WifiConfig([], [], false)

  /** Both fields fit their buffers as NUL-terminated C strings. */
  predicate FitsBuffers(c: WifiConfig)
  {
    && |c.ssid| < SSID_BUFFER && NUL !in c.ssid
    && |c.password| < PASSWORD_BUFFER && NUL !in c.password
  }

  /** The tokens `strtok(body, "&")` yields, in order. */
  function Tokens(body: Bytes): (r: seq<Bytes>)
    ensures forall i | 0 <= i < |r| :: |r[i]| > 0 && AMP !in r[i]
    ensures forall i, b | 0 <= i < |r| && b in r[i] :: b in body
  {
    NonEmpty(Split(body, AMP))
  }

  /** The tokens are exactly the non-empty `&`-separated pieces of the body,
      and those pieces glue back into the body. */
  lemma TokensArePieces(body: Bytes)
    ensures forall x :: x in Tokens(body) <==> x in Split(body, AMP) && |x| > 0
    ensures Join(Split(body, AMP), AMP) == body
  {
    forall x ensures x in Tokens(body) <==> x in Split(body, AMP) && |x| > 0 {
      NonEmptyElements(Split(body, AMP), x);
    }
    JoinSplit(body, AMP);
  }

  /** The simple URL decoding of the portal: `+` becomes a space. */
  function DecodePlus(v: Bytes): (r: Bytes)
    ensures |r| == |v|
    ensures forall i | 0 <= i < |v| :: r[i] == (if v[i] == PLUS then SPACE else v[i])
    decreases |v|
  {
    if |v| == 0 then []
    else [if v[0] == PLUS then SPACE else v[0]] + DecodePlus(v[1..])
  }

  /** The browser side of the same convention: a space is sent as `+`. */
  function EncodeSpace(v: Bytes): (r: Bytes)
    ensures |r| == |v|
    ensures forall i | 0 <= i < |v| :: r[i] == (if v[i] == SPACE then PLUS else v[i])
    decreases |v|
  {
    if |v| == 0 then []
    else [if v[0] == SPACE then PLUS else v[0]] + EncodeSpace(v[1..])
  }

  /** The bounded copy that replaces the unchecked `strcpy`: a value that does
      not fit is truncated to the longest prefix that does. */
  function Store(value: Bytes, buffer: nat): (r: Bytes)
    requires buffer >= 1
    ensures |r| < buffer
    ensures IsPrefix(r, value)
    ensures |value| < buffer ==> r == value
    ensures |value| >= buffer ==> |r| == buffer - 1
  {
    if |value| < buffer then value else value[..buffer - 1]
  }

  /** One loop iteration of the parser: a token without `=` is ignored, a
      recognised name overwrites its field, any other name changes nothing. */
  function ApplyToken(c: WifiConfig, token: Bytes): WifiConfig
  {
    match SplitOnce(token, EQ)
    case None => c
    case Some((name, raw)) =>
      if name == SSID_NAME then c.(ssid := Store(DecodePlus(raw), SSID_BUFFER))
      else if name == PASSWORD_NAME then c.(password := Store(DecodePlus(raw), PASSWORD_BUFFER))
      else c
  }

  function ApplyTokens(c: WifiConfig, tokens: seq<Bytes>): WifiConfig
    decreases |tokens|
  {
    if |tokens| == 0 then c
    else ApplyTokens(ApplyToken(c, tokens[0]), tokens[1..])
  }

  /** `parse_form_data`: fold the tokens into the record, then mark it
      received whatever the body held. */
  function ParseForm(c: WifiConfig, body: Bytes): (r: WifiConfig)
    requires NUL !in body
    requires FitsBuffers(c)
    ensures r.received
    ensures FitsBuffers(r)
  {
    ApplyTokensFit(c, Tokens(body));
    ApplyTokens(c, Tokens(body)).(received := true)
  }

  lemma {:induction false} ApplyTokensFit(c: WifiConfig, tokens: seq<Bytes>)
    requires FitsBuffers(c)
    requires forall i | 0 <= i < |tokens| :: NUL !in tokens[i]
    ensures FitsBuffers(ApplyTokens(c, tokens))
    decreases |tokens|
  {
    if |tokens| > 0 {
      var t := tokens[0];
      if SplitOnce(t, EQ).Some? {
        var (name, raw) := SplitOnce(t, EQ).value;
        assert forall j | 0 <= j < |raw| :: raw[j] == t[|name| + 1 + j];
        assert NUL !in DecodePlus(raw);
      }
      ApplyTokensFit(ApplyToken(c, t), tokens[1..]);
    }
  }

  /* ---------------- reference: the last assignment wins ---------------- */

  /** The decoded value of the LAST token named `name`, if any. */
  function LastValue(tokens: seq<Bytes>, name: Bytes): Option<Bytes>
    decreases |tokens|
  {
    if |tokens| == 0 then None
    else
      var t := tokens[|tokens| - 1];
      match SplitOnce(t, EQ)
      case Some((n, raw)) =>
        if n == name then Some(DecodePlus(raw)) else LastValue(tokens[..|tokens| - 1], name)
      case None => LastValue(tokens[..|tokens| - 1], name)
  }

  /** What a field holds after the tokens: its last assigned value, bounded,
      or its old contents when the tokens never name it. */
  function Assigned(before: Bytes, last: Option<Bytes>, buffer: nat): Bytes
    requires buffer >= 1
  {
    match last
    case None => before
    case Some(v) => Store(v, buffer)
  }

  lemma {:induction false} ApplyTokensSnoc(c: WifiConfig, tokens: seq<Bytes>, t: Bytes)
    ensures ApplyTokens(c, tokens + [t]) == ApplyToken(ApplyTokens(c, tokens), t)
    decreases |tokens|
  {
    if |tokens| > 0 {
      assert (tokens + [t])[1..] == tokens[1..] + [t];
      ApplyTokensSnoc(ApplyToken(c, tokens[0]), tokens[1..], t);
    }
  }

  /** The parser's fold agrees with the last-assignment reference, field by
      field, and never touches `received`. */
  lemma {:induction false} ApplyTokensIsLastValue(c: WifiConfig, tokens: seq<Bytes>)
    ensures ApplyTokens(c, tokens).ssid == Assigned(c.ssid, LastValue(tokens, SSID_NAME), SSID_BUFFER)
    ensures ApplyTokens(c, tokens).password == Assigned(c.password, LastValue(tokens, PASSWORD_NAME), PASSWORD_BUFFER)
    ensures ApplyTokens(c, tokens).received == c.received
    decreases |tokens|
  {
    if |tokens| > 0 {
      var init := tokens[..|tokens| - 1];
      var t := tokens[|tokens| - 1];
      assert tokens == init + [t];
      ApplyTokensSnoc(c, init, t);
      ApplyTokensIsLastValue(c, init);
    }
  }

  /** What `parse_form_data` in wifi-portal.c promises: `ssid` and `password` hold
      the (bounded) value of their last occurrence or are left alone, and
      `received` becomes true even for an empty or unrecognised body. */
  lemma ParseFormFields(c: WifiConfig, body: Bytes)
    requires NUL !in body
    requires FitsBuffers(c)
    ensures ParseForm(c, body).ssid == Assigned(c.ssid, LastValue(Tokens(body), SSID_NAME), SSID_BUFFER)
    ensures ParseForm(c, body).password == Assigned(c.password, LastValue(Tokens(body), PASSWORD_NAME), PASSWORD_BUFFER)
    ensures ParseForm(c, body).received
  {
    ApplyTokensIsLastValue(c, Tokens(body));
  }

  /** Unrecognised names and tokens without `=` leave the record's fields as
      they were. */
  lemma ParseFormIgnoresOthers(c: WifiConfig, body: Bytes)
    requires NUL !in body
    requires FitsBuffers(c)
    requires LastValue(Tokens(body), SSID_NAME).None?
    requires LastValue(Tokens(body), PASSWORD_NAME).None?
    ensures ParseForm(c, body) == c.(received := true)
  {
    ParseFormFields(c, body);
  }

  /* ---------------- decoding is `+` only ---------------- */

  /** A value with no `+` is stored byte for byte: percent escapes survive. */
  lemma DecodeWithoutPlus(v: Bytes)
    requires PLUS !in v
    ensures DecodePlus(v) == v
  {
  }

  lemma DecodeEncode(v: Bytes)
    requires PLUS !in v
    ensures DecodePlus(EncodeSpace(v)) == v
  {
  }

  lemma DecodeExamples()
    ensures DecodePlus(Ascii("a+b")) == Ascii("a b")
    ensures DecodePlus(Ascii("a%20b")) == Ascii("a%20b")
  {
    DecodeWithoutPlus(Ascii("a%20b"));
    var v := Ascii("a+b");
    assert DecodePlus(v)[1] == SPACE;
  }

  /* ---------------- round trip ---------------- */

  /** The body a browser submits for the setup form. */
  function EncodeForm(ssid: Bytes, password: Bytes): Bytes
  {
    SSID_NAME + [EQ] + EncodeSpace(ssid) + [AMP] + PASSWORD_NAME + [EQ] + EncodeSpace(password)
  }

  /** Values the encoder can carry unambiguously: no `&` (token separator),
      no `+` (read back as a space), no NUL, and short enough for the buffer. */
  predicate Transportable(v: Bytes, buffer: nat)
  {
    |v| < buffer && AMP !in v && PLUS !in v && NUL !in v
  }

  lemma EncodeSpaceKeeps(v: Bytes, b: byte)
    requires b != SPACE && b != PLUS
    ensures b in EncodeSpace(v) <==> b in v
  {
    var e := EncodeSpace(v);
    if b in e {
      var i :| 0 <= i < |e| && e[i] == b;
      assert v[i] == b;
    }
    if b in v {
      var i :| 0 <= i < |v| && v[i] == b;
      assert e[i] == b;
    }
  }

  /** A body of two `&`-free, non-empty tokens is tokenised into exactly them. */
  lemma TokensOfPair(t1: Bytes, t2: Bytes)
    requires |t1| > 0 && |t2| > 0 && AMP !in t1 && AMP !in t2
    ensures Tokens(t1 + [AMP] + t2) == [t1, t2]
  {
    assert [t1, t2][1..] == [t2];
    assert Join([t1, t2], AMP) == t1 + [AMP] + t2;
    SplitJoin([t1, t2], AMP);
    NonEmptyKeepsAll([t1, t2]);
  }

  /** The token a browser sends for one field sets exactly that field. */
  lemma ApplyEncodedField(c: WifiConfig, name: Bytes, v: Bytes)
    requires name == SSID_NAME || name == PASSWORD_NAME
    requires Transportable(v, if name == SSID_NAME then SSID_BUFFER else PASSWORD_BUFFER)
    ensures ApplyToken(c, name + [EQ] + EncodeSpace(v))
         == if name == SSID_NAME then c.(ssid := v) else c.(password := v)
  {
    assert EQ !in name;
    SplitOnceAt(name, EQ, EncodeSpace(v));
    DecodeEncode(v);
    assert SSID_NAME != PASSWORD_NAME by {
      assert |SSID_NAME| != |PASSWORD_NAME|;
    }
  }

  /** Decoding an encoded form gives back exactly the submitted credentials,
      whatever the record held before; a value may itself contain `=`. */
  lemma FormRoundTrip(c: WifiConfig, ssid: Bytes, password: Bytes)
    requires FitsBuffers(c)
    requires Transportable(ssid, SSID_BUFFER)
    requires Transportable(password, PASSWORD_BUFFER)
    ensures NUL !in EncodeForm(ssid, password)
    ensures ParseForm(c, EncodeForm(ssid, password)) == WifiConfig(ssid, password, true)
  {
    EncodeSpaceKeeps(ssid, AMP);
    EncodeSpaceKeeps(password, AMP);
    EncodeSpaceKeeps(ssid, NUL);
    EncodeSpaceKeeps(password, NUL);
    var t1 := SSID_NAME + [EQ] + EncodeSpace(ssid);
    var t2 := PASSWORD_NAME + [EQ] + EncodeSpace(password);
    var body := EncodeForm(ssid, password);
    assert body == t1 + [AMP] + t2;
    assert NUL !in body;
    TokensOfPair(t1, t2);
    var c1 := c.(ssid := ssid);
    ApplyEncodedField(c, SSID_NAME, ssid);
    ApplyEncodedField(c1, PASSWORD_NAME, password);
    assert [t1, t2][1..] == [t2];
    assert ApplyTokens(c, [t1, t2]) == ApplyTokens(c1, [t2]);
    assert ApplyTokens(c1, [t2]) == c1.(password := password);
  }

  lemma EncodeWithoutSpace(v: Bytes)
    requires SPACE !in v
    ensures EncodeSpace(v) == v
  {
  }

  lemma SsidFieldText()
    ensures IsAscii("ssid=") && Ascii("ssid=") == SSID_NAME + [EQ]
  {
    AsciiAppend("ssid", "=");
    assert "ssid" + "=" == "ssid=";
  }

  lemma PasswordFieldText()
    ensures IsAscii("&password=") && Ascii("&password=") == [AMP] + PASSWORD_NAME + [EQ]
  {
    AsciiAppend("&", "password");
    assert "&" + "password" == "&password";
    AsciiAppend("&password", "=");
    assert "&password" + "=" == "&password=";
  }

  /** The text `ssid=<ssid>&password=<password>` is the encoded form of two
      values without spaces. */
  lemma AsciiFormText(ssid: string, password: string)
    requires IsAscii(ssid) && IsAscii(password)
    requires ' ' !in ssid && ' ' !in password
    ensures IsAscii("ssid=" + ssid + "&password=" + password)
    ensures Ascii("ssid=" + ssid + "&password=" + password) == EncodeForm(Ascii(ssid), Ascii(password))
  {
    AsciiExcludes(ssid, ' ');
    AsciiExcludes(password, ' ');
    EncodeWithoutSpace(Ascii(ssid));
    EncodeWithoutSpace(Ascii(password));
    SsidFieldText();
    PasswordFieldText();
    var a := "ssid=";
    var b := "&password=";
    AsciiAppend(a, ssid);
    AsciiAppend(a + ssid, b);
    AsciiAppend(a + ssid + b, password);
  }

  /** Credentials typed as ASCII text without spaces, `&`, `+` or NUL and
      short enough for the buffers are captured verbatim from the text
      `ssid=<ssid>&password=<password>`. */
  lemma TextFormRoundTrip(c: WifiConfig, ssid: string, password: string)
    requires FitsBuffers(c)
    requires IsAscii(ssid) && IsAscii(password)
    requires |ssid| < SSID_BUFFER && |password| < PASSWORD_BUFFER
    requires ' ' !in ssid && '&' !in ssid && '+' !in ssid && '\0' !in ssid
    requires ' ' !in password && '&' !in password && '+' !in password && '\0' !in password
    ensures IsAscii("ssid=" + ssid + "&password=" + password)
    ensures NUL !in Ascii("ssid=" + ssid + "&password=" + password)
    ensures ParseForm(c, Ascii("ssid=" + ssid + "&password=" + password)) == WifiConfig(Ascii(ssid), Ascii(password), true)
  {
    AsciiFormText(ssid, password);
    AsciiExcludes(ssid, '&');
    AsciiExcludes(ssid, '+');
    AsciiExcludes(ssid, '\0');
    AsciiExcludes(password, '&');
    AsciiExcludes(password, '+');
    AsciiExcludes(password, '\0');
    FormRoundTrip(c, Ascii(ssid), Ascii(password));
  }

  /** The credentials of a typical submission are captured verbatim. */
  lemma HomeNetExample(c: WifiConfig, ssid: string, password: string)
    requires FitsBuffers(c)
    requires ssid == "HomeNet" && password == "secret123"
    ensures IsAscii("ssid=" + ssid + "&password=" + password)
    ensures ParseForm(c, Ascii("ssid=" + ssid + "&password=" + password)) == WifiConfig(Ascii(ssid), Ascii(password), true)
  {
    TextFormRoundTrip(c, ssid, password);
  }

  /** A body that is one `name=value` pair naming neither field changes
      nothing but the received flag. */
  lemma UnknownFieldIgnored(c: WifiConfig, name: Bytes, value: Bytes)
    requires FitsBuffers(c)
    requires name != SSID_NAME && name != PASSWORD_NAME
    requires AMP !in name && AMP !in value && EQ !in name
    requires NUL !in name && NUL !in value
    ensures ParseForm(c, name + [EQ] + value) == c.(received := true)
  {
    var body := name + [EQ] + value;
    assert AMP !in body;
    assert NUL !in body;
    assert Split(body, AMP) == [body] by {
      assert IndexOf(body, AMP) == |body|;
    }
    assert Tokens(body) == [body];
    SplitOnceAt(name, EQ, value);
    assert [body][..0] == [];
    ParseFormIgnoresOthers(c, body);
  }

  /** A body naming neither field still counts as received, with the fields
      left empty: the connect step will use an empty SSID. */
  lemma UnrecognisedBodyExample(name: string, value: string)
    requires name == "foo" && value == "bar"
    ensures IsAscii(name + "=" + value)
    ensures ParseForm(EmptyConfig, Ascii(name + "=" + value)) == WifiConfig([], [], true)
  {
    AsciiAppend(name, "=");
    AsciiAppend(name + "=", value);
    assert Ascii("=") == [EQ];
    assert |Ascii(name)| != |SSID_NAME| && |Ascii(name)| != |PASSWORD_NAME|;
    AsciiExcludes(name, '&');
    AsciiExcludes(name, '=');
    AsciiExcludes(name, '\0');
    AsciiExcludes(value, '&');
    AsciiExcludes(value, '\0');
    UnknownFieldIgnored(EmptyConfig, Ascii(name), Ascii(value));
  }
}
