/**
 * The preview frame: `injectPreview`, which puts the selection script into the generated page
 * before it is shown, and the message handler that records which element the page reports as
 * selected.
 */
module ProjectPreview {
  import opened Wrappers
  import opened Text
  import opened EditorPanel

  const BodyClose := "</body>"
  const ElementSelected := "ELEMENT_SELECTED"

  /* ---------------------------------------------------------------- String.prototype.replace */

  /** The replacement text `String.prototype.replace` inserts for a string pattern: `rep` with
    * `$$` read as `$`, `$&` as the matched text, `` $` `` as the text before the match and `$'` as
    * the text after it. Every other `$` stands for itself, since a string pattern has no groups. */
  function Expand(rep: string, before: string, matched: string, after: string): string
    decreases |rep|
  {
    if rep == [] then []
    else if rep[0] == '$' && |rep| >= 2 && rep[1] in "$&`'" then
      var insert := match rep[1]
        case '$' => "$"
        case '&' => matched
        case '`' => before
        case _ => after;
      insert + Expand(rep[2..], before, matched, after)
    else [rep[0]] + Expand(rep[1..], before, matched, after)
  }

  /** A replacement with no `$` in it is inserted as it is. */
  lemma {:induction false} ExpandLiteral(rep: string, before: string, matched: string, after: string)
    requires '$' !in rep
    ensures Expand(rep, before, matched, after) == rep
    decreases |rep|
  {
    if rep != [] {
      assert rep[0] != '$';
      assert '$' !in rep[1..] by {
        forall k | 0 <= k < |rep[1..]|
          ensures rep[1..][k] != '$'
        {
          assert rep[1..][k] == rep[k + 1];
        }
      }
      ExpandLiteral(rep[1..], before, matched, after);
      assert rep == [rep[0]] + rep[1..];
    }
  }

  /** `s.replace(pat, rep)` for a string `pat`: only the first occurrence is replaced, and a text
    * without one is returned as it is. */
  function ReplaceFirst(s: string, pat: string, rep: string): (r: string)
    ensures IndexOf(s, pat).None? ==> r == s
  {
    match IndexOf(s, pat)
    case None => s
    case Some(i) =>
      var after := s[i + |pat|..];
      s[..i] + Expand(rep, s[..i], pat, after) + after
  }

  /* ---------------------------------------------------------------- injectPreview */

  /** `injectPreview(html)`, with `showEditorPanel` and the selection script `script` as inputs. */
  function InjectPreview(html: string, showEditorPanel: bool, script: string): string {
    if html == "" then ""
    else if !showEditorPanel then html
    else if Contains(html, BodyClose) then ReplaceFirst(html, BodyClose, script + BodyClose)
    else html + script
  }

  /** Where the script goes: just before the first `</body>`, or at the end. */
  function InsertionPoint(html: string): (k: nat)
    ensures k <= |html|
    ensures Contains(html, BodyClose) ==> OccursAt(html, BodyClose, k)
    ensures !Contains(html, BodyClose) ==> k == |html|
    ensures forall j :: 0 <= j < k ==> !OccursAt(html, BodyClose, j)
  {
    match IndexOf(html, BodyClose)
    case Some(i) => i
    case None => |html|
  }

  /** An empty page stays empty. */
  lemma EmptyPageStaysEmpty(showEditorPanel: bool, script: string)
    ensures InjectPreview("", showEditorPanel, script) == ""
  {
  }

  /** With the editor panel off, the page is shown as generated. */
  lemma DisabledPanelLeavesPage(html: string, script: string)
    ensures InjectPreview(html, false, script) == html
  {
  }

  /** With the panel on, a page whose first `</body>` is at `i` has that `</body>` replaced by the
    * expansion of the script followed by `</body>`. */
  lemma InjectAt(html: string, script: string, i: nat)
    requires OccursAt(html, BodyClose, i)
    requires forall j :: 0 <= j < i ==> !OccursAt(html, BodyClose, j)
    ensures var after := html[i + |BodyClose|..];
      InjectPreview(html, true, script) == html[..i] + Expand(script + BodyClose, html[..i], BodyClose, after) + after
  {
    IndexOfFirst(html, BodyClose, i);
  }

  /** A page with a `</body>` gets the script just before the first one and nowhere else: every
    * character before that point and from it on is kept. */
  lemma InsertsBeforeFirstBodyClose(html: string, script: string, i: nat)
    requires OccursAt(html, BodyClose, i)
    requires forall j :: 0 <= j < i ==> !OccursAt(html, BodyClose, j)
    requires '$' !in script
    ensures InjectPreview(html, true, script) == html[..i] + script + html[i..]
  {
    InjectAt(html, script, i);
    var after := html[i + |BodyClose|..];
    assert '$' !in script + BodyClose by {
      assert '$' !in BodyClose;
    }
    ExpandLiteral(script + BodyClose, html[..i], BodyClose, after);
    assert html[i..] == BodyClose + after;
  }

  /** A page without `</body>` gets the script at its end. */
  lemma AppendsWithoutBodyClose(html: string, script: string)
    requires html != "" && !Contains(html, BodyClose)
    ensures InjectPreview(html, true, script) == html + script
  {
  }

  /** With the panel on, the page is the original with the script spliced in at the insertion
    * point: its length grows by the script's, and cutting the script out gives the page back. */
  lemma InjectionIsSplice(html: string, script: string)
    requires html != "" && '$' !in script
    ensures var k := InsertionPoint(html);
      && var shown := InjectPreview(html, true, script);
      && shown == html[..k] + script + html[k..]
      && |shown| == |html| + |script|
      && shown[..k] + shown[k + |script|..] == html
  {
    var k := InsertionPoint(html);
    if Contains(html, BodyClose) {
      InsertsBeforeFirstBodyClose(html, script, k);
    } else {
      assert html[..k] == html && html[k..] == [];
    }
    var shown := html[..k] + script + html[k..];
    assert shown[..k] == html[..k];
    assert shown[k + |script|..] == html[k..];
  }

  /** `$&` followed by literal text expands to the matched text followed by that text. */
  lemma ExpandMatched(rest: string, before: string, matched: string, after: string)
    requires '$' !in rest
    ensures Expand("$&" + rest, before, matched, after) == matched + rest
  {
    var rep := "$&" + rest;
    assert rep[0] == '$' && rep[1] == '&' && rep[2..] == rest;
    ExpandLiteral(rest, before, matched, after);
  }

  /** A `$&` in the script is not inserted literally: a script `$&` followed by literal text puts
    * a second copy of the `</body>` it replaces in front of that text. */
  lemma PatternInScriptIsExpanded(html: string, i: nat, rest: string)
    requires OccursAt(html, BodyClose, i)
    requires forall j :: 0 <= j < i ==> !OccursAt(html, BodyClose, j)
    requires '$' !in rest
    ensures InjectPreview(html, true, "$&" + rest)
         == html[..i] + BodyClose + rest + BodyClose + html[i + |BodyClose|..]
  {
    var after := html[i + |BodyClose|..];
    InjectAt(html, "$&" + rest, i);
    assert '$' !in rest + BodyClose by {
      assert '$' !in BodyClose;
    }
    assert "$&" + rest + BodyClose == "$&" + (rest + BodyClose);
    ExpandMatched(rest + BodyClose, html[..i], BodyClose, after);
  }

  /* ---------------------------------------------------------------- the selection state */

  /** The `data` of a message posted to the window: its `type` and its `payload`, which may be
    * missing. Data without a `type` (a string, say) has a type that is not `ELEMENT_SELECTED`. */
  datatype Message = Message(messageType: string, payload: Option<ElementValues>)

  class Preview {
    /** The element the editor panel edits; `None` when nothing is selected. */
    var selectedElement: Option<ElementValues>

    constructor ()
      ensures selectedElement == None
    {
      selectedElement := None;
    }

    /** The editor panel is on screen: the project has code to preview, the panel is enabled and
      * an element is selected. */
    predicate ShowsEditor(showEditorPanel: bool, hasCode: bool)
      reads this
    {
      hasCode && showEditorPanel && selectedElement.Some?
    }

    /** `handleMesage` on a message whose `data` is `data`. An `ELEMENT_SELECTED` message selects its
      * payload and any other clears the selection; a message without data (`None`, for `null` or
      * `undefined`) makes reading its `type` throw, and the selection stays as it was. The last
      * postcondition follows from the others; it is spelled out so that a caller reads off directly
      * whether the editor panel is on screen after the message. */
    method HandleMessage(data: Option<Message>)
      modifies this
      ensures data.None? ==> selectedElement == old(selectedElement)
      ensures data.Some? && data.value.messageType == ElementSelected ==> selectedElement == data.value.payload
      ensures data.Some? && data.value.messageType != ElementSelected ==> selectedElement == None
      ensures ShowsEditor(true, true) <==>
        if data.Some? then data.value.messageType == ElementSelected && data.value.payload.Some?
        else old(selectedElement).Some?
    {
      if data.None? {
        return;
      }
      if data.value.messageType == ElementSelected {
        selectedElement := data.value.payload;
      } else {
        selectedElement := None;
      }
    }

    /** Closing the panel clears the selection, so the panel is off screen whatever the flags. */
    method Close()
      modifies this
      ensures selectedElement == None
      ensures forall showEditorPanel, hasCode :: !ShowsEditor(showEditorPanel, hasCode)
    {
      selectedElement := None;
    }
  }
}
