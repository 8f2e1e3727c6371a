/** The answer handling of `call_deepseek_for_income_statement`: refuse an
    empty answer, try the whole text as JSON, and otherwise fall back on the
    block `re.search(r'\{.*\}', content, re.DOTALL)` finds. JSON decoding
    itself is a parameter: `loads` stands for `json.loads`, `None` for a
    `JSONDecodeError`. */
module JsonRecovery {
  import opened Values
  import opened Strings

  /** The first position holding `c`. */
  function FirstIndexOf(s: string, c: char): (r: Option<nat>)
    ensures r.Some? ==> r.value < |s| && s[r.value] == c && forall k :: 0 <= k < r.value ==> s[k] != c
    ensures r.None? ==> forall k :: 0 <= k < |s| ==> s[k] != c
    decreases |s|
  {
    if |s| == 0 then None
    else if s[0] == c then Some(0)
    else
      match FirstIndexOf(s[1..], c)
      case None => None
      case Some(i) => Some(i + 1)
  }

  /** The last position holding `c`. */
  function LastIndexOf(s: string, c: char): (r: Option<nat>)
    ensures r.Some? ==> r.value < |s| && s[r.value] == c && forall k :: r.value < k < |s| ==> s[k] != c
    ensures r.None? ==> forall k :: 0 <= k < |s| ==> s[k] != c
    decreases |s|
  {
    if |s| == 0 then None
    else if s[|s| - 1] == c then Some(|s| - 1)
    else LastIndexOf(s[..|s| - 1], c)
  }

  /** `s[a..b+1]` is a match of `\{.*\}`: it opens with `{` and closes with
      a later `}` (with DOTALL, `.` also crosses newlines). */
  predicate IsBraceSpan(s: string, a: int, b: int) {
    0 <= a < b < |s| && s[a] == '{' && s[b] == '}'
  }

  /** `re.search(r'\{.*\}', content, re.DOTALL)`, as the matched text: the
      leftmost match, made as long as the greedy `.*` allows. */
  function RecoverObjectText(s: string): (r: Option<string>)
    ensures r.Some? <==> exists a, b :: IsBraceSpan(s, a, b)
    ensures r.Some? ==> |r.value| >= 2 && r.value[0] == '{' && r.value[|r.value| - 1] == '}'
  {
    var open := FirstIndexOf(s, '{');
    var close := LastIndexOf(s, '}');
    if open.Some? && close.Some? && open.value < close.value then
      var block := s[open.value..close.value + 1];
      assert IsBraceSpan(s, open.value, close.value);
      assert block[0] == s[open.value] && block[|block| - 1] == s[close.value];
      Some(block)
    else
      assert forall a, b :: !IsBraceSpan(s, a, b);
      None
  }

  /** The matched text is the span of the regex's own choice: among all
      matches, the one that starts first and, from there, reaches furthest. */
  lemma RecoveredIsLeftmostLongest(s: string) returns (a: nat, b: nat)
    requires RecoverObjectText(s).Some?
    ensures IsBraceSpan(s, a, b) && RecoverObjectText(s) == Some(s[a..b + 1])
    ensures forall a', b' :: IsBraceSpan(s, a', b') ==> a <= a' && b' <= b
  {
    a := FirstIndexOf(s, '{').value;
    b := LastIndexOf(s, '}').value;
  }

  /** Prose around a single object: with no `{` before it and no `}` after
      it, the object is recovered exactly. */
  lemma RecoverFromProse(prefix: string, obj: string, suffix: string)
    requires |obj| >= 2 && obj[0] == '{' && obj[|obj| - 1] == '}'
    requires forall k :: 0 <= k < |prefix| ==> prefix[k] != '{'
    requires forall k :: 0 <= k < |suffix| ==> suffix[k] != '}'
    ensures RecoverObjectText(prefix + obj + suffix) == Some(obj)
  {
    var s := prefix + obj + suffix;
    var a := |prefix|;
    var b := |prefix| + |obj| - 1;
    assert s[a] == '{' && s[b] == '}';
    assert forall k :: 0 <= k < a ==> s[k] == prefix[k];
    assert forall k :: b < k < |s| ==> s[k] == suffix[k - |prefix| - |obj|];
    assert FirstIndexOf(s, '{') == Some(a);
    assert LastIndexOf(s, '}') == Some(b);
    assert s[a..b + 1] == obj;
  }

  /** The model's answer through to a parsed object or the error raised. The
      content may be JSON null, hence the option. */
  function DecodeResponse<J>(content: Option<string>, loads: string -> Option<J>): (r: Result<J>)
    ensures r == Failure(EmptyContent) <==> content.None? || IsBlank(content.value)
    ensures r.Success? ==>
              loads(content.value) == Some(r.value)
              || (loads(content.value).None? && RecoverObjectText(content.value).Some?
                  && loads(RecoverObjectText(content.value).value) == Some(r.value))
    ensures r == Failure(NoJsonObject) <==>
              && content.Some? && !IsBlank(content.value) && loads(content.value).None?
              && forall a, b :: !IsBraceSpan(content.value, a, b)
    ensures r.Failure? ==> r.error in {EmptyContent, NoJsonObject, JsonDecodeError}
    // text that decodes as a whole is the answer
    ensures content.Some? && !IsBlank(content.value) && loads(content.value).Some? ==>
              r == Success(loads(content.value).value)
    // otherwise the recovered block decides: its decoding, or the decode error
    ensures content.Some? && !IsBlank(content.value) && loads(content.value).None?
              && RecoverObjectText(content.value).Some? ==>
              var block := RecoverObjectText(content.value).value;
              && (r == Failure(JsonDecodeError) <==> loads(block).None?)
              && (loads(block).Some? ==> r == Success(loads(block).value))
  {
    match content
    case None => Failure(EmptyContent)
    case Some(text) =>
      if IsBlank(text) then Failure(EmptyContent)
      else
        match loads(text)
        case Some(j) => Success(j)
        case None =>
          match RecoverObjectText(text)
          case None => Failure(NoJsonObject)
          case Some(block) =>
            match loads(block)
            case Some(j) => Success(j)
            case None => Failure(JsonDecodeError)
  }

  /** A valid JSON answer is taken as it is, whatever braces it holds. */
  lemma PureJsonIsTakenWhole<J>(text: string, loads: string -> Option<J>, j: J)
    requires !IsBlank(text) && loads(text) == Some(j)
    ensures DecodeResponse(Some(text), loads) == Success(j)
  {
  }

  /** An answer that wraps one decodable object in prose without braces is
      decoded to that object, provided the whole answer does not decode. */
  lemma ObjectInProseIsDecoded<J>(prefix: string, obj: string, suffix: string, loads: string -> Option<J>, j: J)
    requires |obj| >= 2 && obj[0] == '{' && obj[|obj| - 1] == '}'
    requires forall k :: 0 <= k < |prefix| ==> prefix[k] != '{'
    requires forall k :: 0 <= k < |suffix| ==> suffix[k] != '}'
    requires loads(prefix + obj + suffix).None? && loads(obj) == Some(j)
    ensures DecodeResponse(Some(prefix + obj + suffix), loads) == Success(j)
  {
    var text := prefix + obj + suffix;
    RecoverFromProse(prefix, obj, suffix);
    assert text[|prefix|] == '{';
    assert !IsBlank(text);
  }

  /** "Sure! {"net_sales": 500}": the object is cut out of the prose. */
  lemma ProseExample()
    ensures RecoverObjectText("Sure! {\"net_sales\": 500}") == Some("{\"net_sales\": 500}")
  {
    var prefix, obj := "Sure! ", "{\"net_sales\": 500}";
    assert prefix + obj + "" == "Sure! {\"net_sales\": 500}";
    RecoverFromProse(prefix, obj, "");
  }
}
