/**
 * The tail of `transcribe_audio`: getting the transcript text out of
 * whatever shape the transcription service answered with.
 */
module Transcript {

  /**
   * The Python values a response can be made of. `Object` is an object
   * with attributes (as the client library's response classes are);
   * `Dict` is a dictionary with string keys; `Int` stands for any other
   * scalar that is not a string.
   */
  datatype Value =
    | NoneValue
    | Str(s: string)
    | Int(i: int)
    | List(items: seq<Value>)
    | Dict(entries: map<string, Value>)
    | Object(attrs: map<string, Value>)

  /** How the transcription call ended: it raised, or it returned a value. */
  datatype Response = Raised | Returned(value: Value)

  /** Python truthiness; plain objects are always true. */
  predicate Truthy(v: Value)
  {
    match v
    case NoneValue => false
    case Str(s) => s != ""
    case Int(i) => i != 0
    case List(items) => items != []
    case Dict(entries) => entries != map[]
    case Object(_) => true
  }

  /** `d.get(key)`: the entry, or `None` when the key is absent. */
  function Get(entries: map<string, Value>, key: string): Value
  {
    if key in entries then entries[key] else NoneValue
  }

  /** `hasattr(v, name)`: only objects carry attributes here. */
  predicate HasAttr(v: Value, name: string)
  {
    v.Object? && name in v.attrs
  }

  /** `getattr(v, name, None)`. */
  function GetAttr(v: Value, name: string): Value
  {
    if HasAttr(v, name) then v.attrs[name] else NoneValue
  }

  /** The text of the first element of a `data` list: `getattr(t0, "text", None) or t0.get("text")`. */
  function FirstItemText(t0: Value): (r: Value)
    ensures Truthy(GetAttr(t0, "text")) ==> r == GetAttr(t0, "text")
    ensures !Truthy(GetAttr(t0, "text")) && t0.Dict? ==> r == Get(t0.entries, "text")
    ensures !Truthy(GetAttr(t0, "text")) && !t0.Dict? ==> r == NoneValue
    ensures r != NoneValue ==> GetAttr(t0, "text") == r || (t0.Dict? && Get(t0.entries, "text") == r)
  {
    var a := GetAttr(t0, "text");
    if Truthy(a) then a
    else if t0.Dict? then Get(t0.entries, "text")
    else NoneValue
  }

  /** The value the fallback chain settles on, before the final string check. */
  function RawText(v: Value): (r: Value)
    ensures v.Dict? ==> r == Get(v.entries, "text")
    ensures v.Object? && !GetAttr(v, "text").NoneValue? ==> r == GetAttr(v, "text")
    ensures v.Object? && GetAttr(v, "text").NoneValue? && GetAttr(v, "data").Dict? ==>
      r == Get(GetAttr(v, "data").entries, "text")
    ensures v.Object? && GetAttr(v, "text").NoneValue? && GetAttr(v, "data").List? && GetAttr(v, "data").items != [] ==>
      r == FirstItemText(GetAttr(v, "data").items[0])
    ensures v.Object? && GetAttr(v, "text").NoneValue? && !GetAttr(v, "data").Dict? &&
            !(GetAttr(v, "data").List? && GetAttr(v, "data").items != []) ==>
      r == NoneValue
    ensures !v.Dict? && !v.Object? ==> r == NoneValue
  {
    if v.Dict? then Get(v.entries, "text")
    else
      var t := GetAttr(v, "text");
      if t.NoneValue? && HasAttr(v, "data") then
        var data := GetAttr(v, "data");
        if data.Dict? then Get(data.entries, "text")
        else if data.List? && |data.items| > 0 then FirstItemText(data.items[0])
        else t
      else t
  }

  /**
   * The transcript `transcribe_audio` returns: `""` when the call raised or
   * when the chain did not end on a string, the string otherwise.
   */
  function ExtractText(r: Response): (text: string)
    ensures r.Raised? ==> text == ""
    ensures r.Returned? && RawText(r.value).Str? ==> text == RawText(r.value).s
    ensures r.Returned? && !RawText(r.value).Str? ==> text == ""
  {
    if r.Raised? then ""
    else
      match RawText(r.value)
      case Str(s) => s
      case _ => ""
  }

  /** A failed transcription is recovered as an empty transcript. */
  lemma RaisedGivesEmpty()
    ensures ExtractText(Raised) == ""
  {
  }

  /** A dictionary answer is read only at its top-level `"text"` key. */
  lemma DictUsesTopLevelText(entries: map<string, Value>)
    ensures "text" in entries && entries["text"].Str? ==>
      ExtractText(Returned(Dict(entries))) == entries["text"].s
    ensures !("text" in entries && entries["text"].Str?) ==>
      ExtractText(Returned(Dict(entries))) == ""
  {
  }

  /** A `.text` attribute that is a string wins over anything under `data`. */
  lemma TextAttributeFirst(attrs: map<string, Value>, s: string)
    requires "text" in attrs && attrs["text"] == Str(s)
    ensures ExtractText(Returned(Object(attrs))) == s
  {
  }

  /** A `.text` attribute that is neither `None` nor a string blocks the fallback and yields `""`. */
  lemma NonStringTextAttributeGivesEmpty(attrs: map<string, Value>)
    requires "text" in attrs && !attrs["text"].NoneValue? && !attrs["text"].Str?
    ensures ExtractText(Returned(Object(attrs))) == ""
  {
  }

  /** Without a usable `.text`, a `data` dictionary supplies its `"text"` entry. */
  lemma DataDictFallback(attrs: map<string, Value>, entries: map<string, Value>, s: string)
    requires "text" !in attrs || attrs["text"].NoneValue?
    requires "data" in attrs && attrs["data"] == Dict(entries)
    requires "text" in entries && entries["text"] == Str(s)
    ensures ExtractText(Returned(Object(attrs))) == s
  {
  }

  /**
   * Without a usable `.text`, a non-empty `data` list supplies the text of
   * its first element: that element's `.text` when it has a non-empty one,
   * else its `"text"` key when it is a dictionary.
   */
  lemma DataListFallback(attrs: map<string, Value>, items: seq<Value>)
    requires "text" !in attrs || attrs["text"].NoneValue?
    requires "data" in attrs && attrs["data"] == List(items) && items != []
    ensures GetAttr(items[0], "text").Str? && GetAttr(items[0], "text").s != "" ==>
      ExtractText(Returned(Object(attrs))) == GetAttr(items[0], "text").s
    ensures items[0].Dict? && Get(items[0].entries, "text").Str? ==>
      ExtractText(Returned(Object(attrs))) == Get(items[0].entries, "text").s
  {
  }

  /** An answer that is neither a dictionary nor an object has no text to offer. */
  lemma OtherShapesGiveEmpty(v: Value)
    requires !v.Dict? && !v.Object?
    ensures ExtractText(Returned(v)) == ""
  {
  }

  /** Whether `s` is carried by the text-bearing places the chain looks at. */
  ghost predicate OfferedText(v: Value, s: string)
  {
    || (v.Dict? && Get(v.entries, "text") == Str(s))
    || GetAttr(v, "text") == Str(s)
    || (GetAttr(v, "data").Dict? && Get(GetAttr(v, "data").entries, "text") == Str(s))
    || (GetAttr(v, "data").List? && |GetAttr(v, "data").items| > 0 &&
        var t0 := GetAttr(v, "data").items[0];
        GetAttr(t0, "text") == Str(s) || (t0.Dict? && Get(t0.entries, "text") == Str(s)))
  }

  /** The transcript is never made up: a non-empty result is a string the answer carries. */
  lemma ExtractedTextIsOffered(v: Value)
    ensures ExtractText(Returned(v)) != "" ==> OfferedText(v, ExtractText(Returned(v)))
  {
  }
}
