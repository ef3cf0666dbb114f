/** `wvalue::dump_internal` of `3rdparty/crow/json.h`, which appends to one output string. */
module JsonWriter {
  import opened JsonSpec

  /** What is still to be written of a list: with a comma before it unless its first item comes next. */
  function PendingItems(items: seq<Json>, first: bool, style: Style, level: nat): string {
    if items == [] then "" else (if first then "" else "," + Break(style, level)) + DumpItems(items, style, level)
  }

  function PendingFields(fields: seq<Field>, first: bool, style: Style, level: nat): string {
    if fields == [] then "" else (if first then "" else "," + Break(style, level)) + DumpFields(fields, style, level)
  }

  lemma NextItem(items: seq<Json>, i: nat, style: Style, level: nat)
    requires i < |items|
    ensures PendingItems(items[i..], i == 0, style, level) ==
            (if i == 0 then "" else "," + Break(style, level)) + Dump(items[i], style, level)
            + PendingItems(items[i + 1..], false, style, level)
  {
    var rest := items[i..];
    assert rest[0] == items[i] && rest[1..] == items[i + 1..];
    if |rest| == 1 {
      assert DumpItems(rest, style, level) == Dump(items[i], style, level);
    }
  }

  lemma NextField(fields: seq<Field>, i: nat, style: Style, level: nat)
    requires i < |fields|
    ensures PendingFields(fields[i..], i == 0, style, level) ==
            (if i == 0 then "" else "," + Break(style, level)) + DumpField(fields[i], style, level)
            + PendingFields(fields[i + 1..], false, style, level)
  {
    var rest := fields[i..];
    assert rest[0] == fields[i] && rest[1..] == fields[i + 1..];
    if |rest| == 1 {
      assert DumpFields(rest, style, level) == DumpField(fields[i], style, level);
    }
  }

  lemma FirstItem(items: seq<Json>, style: Style, level: nat)
    ensures PendingItems(items[0..], true, style, level) == DumpItems(items, style, level)
  {
    assert items[0..] == items;
  }

  lemma FirstField(fields: seq<Field>, style: Style, level: nat)
    ensures PendingFields(fields[0..], true, style, level) == DumpFields(fields, style, level)
  {
    assert fields[0..] == fields;
  }

  lemma Appends(before: string, a: string, b: string, c: string, d: string, e: string)
    ensures before + a + b + c + d + e == before + (a + (b + (c + (d + e))))
  {
  }

  class Writer {
    var out: string

    constructor ()
      ensures out == ""
    {
      out := "";
    }

    method Append(s: string)
      modifies this
      ensures out == old(out) + s
    {
      out := out + s;
    }

    /** `escape`, character by character. */
    method DumpString(s: string)
      modifies this
      ensures out == old(out) + JsonSpec.DumpString(s)
    {
      hide EscapeChar;
      ghost var before := out;
      Append("\"");
      for i := 0 to |s|
        invariant out + Escape(s[i..]) == before + "\"" + Escape(s)
      {
        assert s[i..][0] == s[i] && s[i..][1..] == s[i + 1..];
        var e := EscapeOne(s[i]);
        Append(e);
      }
      assert s[|s|..] == "";
      assert before + "\"" + Escape(s) + "\"" == before + JsonSpec.DumpString(s);
      Append("\"");
    }

    /** The switch over one character. */
    method EscapeOne(c: char) returns (e: string)
      ensures e == EscapeChar(c)
    {
      match c {
        case '"' => e := "\\\"";
        case '\\' => e := "\\\\";
        case '\n' => e := "\\n";
        case '\r' => e := "\\r";
        case '\t' => e := "\\t";
        case _ =>
          if c == 8 as char {
            e := "\\b";
          } else if c == 12 as char {
            e := "\\f";
          } else if c < ' ' {
            var high := HexOf(c as int / 16);
            var low := HexOf(c as int % 16);
            e := "\\u00" + [high, low];
          } else {
            e := [c];
          }
      }
    }

    method HexOf(c: nat) returns (h: char)
      requires c < 16
      ensures h == ToHex(c)
    {
      h := if c < 10 then '0' + c as char else 'a' + (c - 10) as char;
    }

    method DumpIndentationPart(style: Style, level: nat)
      modifies this
      ensures out == old(out) + Break(style, level)
    {
      if style.indent >= 0 {
        Append([NL]);
        Append(Repeat(style.separator, level * style.indent));
      }
    }

    method DumpInternal(v: Json, style: Style, level: nat)
      modifies this
      ensures out == old(out) + Dump(v, style, level)
      decreases v, 2
    {
      match v
      case Null => Append("null");
      case False => Append("false");
      case True => Append("true");
      case Number(text) => Append(text);
      case Str(s) => DumpString(s);
      case List(items) => DumpList(items, style, level);
      case Object(fields) => DumpObject(fields, style, level);
    }

    method DumpList(items: seq<Json>, style: Style, level: nat)
      modifies this
      ensures out == old(out) + Dump(List(items), style, level)
      decreases items, 1
    {
      ghost var before := out;
      Append("[");
      DumpIndentationPart(style, level + 1);
      DumpItems(items, style, level + 1);
      DumpIndentationPart(style, level);
      Append("]");
      Appends(before, "[", Break(style, level + 1), JsonSpec.DumpItems(items, style, level + 1), Break(style, level),
              "]");
    }

    method DumpItems(items: seq<Json>, style: Style, level: nat)
      modifies this
      ensures out == old(out) + JsonSpec.DumpItems(items, style, level)
      decreases items, 0
    {
      hide JsonSpec.DumpItems, Dump, Break;
      ghost var goal := out + JsonSpec.DumpItems(items, style, level);
      FirstItem(items, style, level);
      var first := true;
      for i := 0 to |items|
        invariant first == (i == 0)
        invariant out + PendingItems(items[i..], first, style, level) == goal
      {
        NextItem(items, i, style, level);
        if !first {
          Append(",");
          DumpIndentationPart(style, level);
        }
        first := false;
        DumpInternal(items[i], style, level);
      }
    }

    method DumpObject(fields: seq<Field>, style: Style, level: nat)
      modifies this
      ensures out == old(out) + Dump(Object(fields), style, level)
      decreases fields, 1
    {
      ghost var before := out;
      Append("{");
      DumpIndentationPart(style, level + 1);
      DumpFields(fields, style, level + 1);
      DumpIndentationPart(style, level);
      Append("}");
      Appends(before, "{", Break(style, level + 1), JsonSpec.DumpFields(fields, style, level + 1),
              Break(style, level), "}");
    }

    method DumpFields(fields: seq<Field>, style: Style, level: nat)
      modifies this
      ensures out == old(out) + JsonSpec.DumpFields(fields, style, level)
      decreases fields, 0
    {
      hide JsonSpec.DumpFields, DumpField, Break;
      ghost var goal := out + JsonSpec.DumpFields(fields, style, level);
      FirstField(fields, style, level);
      var first := true;
      for i := 0 to |fields|
        invariant first == (i == 0)
        invariant out + PendingFields(fields[i..], first, style, level) == goal
      {
        NextField(fields, i, style, level);
        if !first {
          Append(",");
          DumpIndentationPart(style, level);
        }
        first := false;
        DumpKeyAndValue(fields[i], style, level);
      }
    }

    method DumpKeyAndValue(field: Field, style: Style, level: nat)
      modifies this
      ensures out == old(out) + DumpField(field, style, level)
      decreases field, 3
    {
      DumpString(field.key);
      Append(":");
      if style.indent >= 0 {
        Append(" ");
      }
      DumpInternal(field.value, style, level);
    }
  }
}
