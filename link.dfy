/**
 * The `Link` component of waku/src/components/link-component.tsx: an href is
 * sorted, in order, into an invalid link, an external link, an in-page anchor
 * or an internal route with a trailing "/", and the class names are picked
 * according to `clean`.
 */
module Link {
  import opened Wrappers
  import opened Strings

  /** The classes a link gets unless `clean` is set. */
  const DefaultClasses := "text-primary hover:text-foreground"

  /** The anchor shown in place of a link without a target, and where it points. */
  const InvalidText := "###INVALID_LINK###"
  const InvalidTarget := "/"

  /** What the component renders. `Anchor` and `Internal` also forward the other
      props; `External` passes only the class names and opens in a new tab
      (target "_blank", rel "noopener noreferrer"), with the external-link icon
      unless `clean` is set. `Internal` shows its target when it has no children. */
  datatype Rendered =
    | Invalid(href: string, text: string)
    | External(href: string, className: Option<string>, icon: bool, children: Option<string>)
    | Anchor(href: string, className: Option<string>, children: Option<string>)
    | Internal(to: string, className: Option<string>, text: string)

  /** The class names: the defaults merged in front of `props.className` by `cn`,
      or `props.className` as it is when `clean` is set. */
  function ClassName(clean: bool, propsClass: Option<string>, cn: (string, Option<string>) -> string): (r: Option<string>)
    ensures clean ==> r == propsClass
    ensures !clean ==> r == Some(cn(DefaultClasses, propsClass))
  {
    if !clean then Some(cn(DefaultClasses, propsClass)) else propsClass
  }

  /** `!href`: undefined or empty. */
  predicate Missing(href: Option<string>) {
    href.None? || href.value == ""
  }

  /** Starts with "http" (which covers "https") or "mailto". */
  predicate IsExternal(h: string) {
    StartsWith(h, "http") || StartsWith(h, "https") || StartsWith(h, "mailto")
  }

  predicate IsAnchor(h: string) {
    StartsWith(h, "#")
  }

  /** `internalHref`: a "/" appended unless it is already the last character. */
  function WithTrailingSlash(h: string): (r: string)
    ensures EndsWith(r, "/")
    ensures r == h || r == h + "/"
    ensures EndsWith(h, "/") ==> r == h
  {
    if EndsWith(h, "/") then h
    else
      var r := h + "/";
      assert r[|r| - 1..] == "/";
      r
  }

  /** Appending the slash a second time changes nothing. */
  lemma WithTrailingSlashIdempotent(h: string)
    ensures WithTrailingSlash(WithTrailingSlash(h)) == WithTrailingSlash(h)
  {
  }

  /** What `Link` renders for `href`, `children`, `clean` and `props.className`. */
  function Render(href: Option<string>, children: Option<string>, clean: bool, propsClass: Option<string>,
                  cn: (string, Option<string>) -> string): (r: Rendered)
    ensures r.Invalid? <==> Missing(href)
    ensures r.Invalid? ==> r == Invalid("/", "###INVALID_LINK###")
    ensures r.External? || r.Anchor? ==> r.href == href.value
    ensures r.External? ==> r.icon == !clean
    ensures !r.Invalid? ==> r.className == ClassName(clean, propsClass, cn)
    ensures r.Internal? ==> EndsWith(r.to, "/") && (r.to == href.value || r.to == href.value + "/")
    ensures r.Internal? ==> r.text == if children.Some? then children.value else r.to
  {
    var className := ClassName(clean, propsClass, cn);
    if Missing(href) then Invalid(InvalidTarget, InvalidText)
    else
      var h := href.value;
      if IsExternal(h) then External(h, className, !clean, children)
      else if IsAnchor(h) then Anchor(h, className, children)
      else
        var internalHref := WithTrailingSlash(h);
        Internal(internalHref, className, if children.Some? then children.value else internalHref)
  }

  /** An undefined or empty href always renders the invalid link to "/". */
  lemma RenderMissing(href: Option<string>, children: Option<string>, clean: bool, propsClass: Option<string>,
                      cn: (string, Option<string>) -> string)
    requires Missing(href)
    ensures Render(href, children, clean, propsClass, cn) == Invalid("/", "###INVALID_LINK###")
  {
  }

  /** "https" links are caught by the "http" test. */
  lemma HttpsIsHttp(h: string)
    ensures StartsWith(h, "https") ==> StartsWith(h, "http")
  {
    if StartsWith(h, "https") {
      assert h[..4] == h[..5][..4];
    }
  }

  /** A prefix without "/" of `h + "/"` is a prefix of `h`. */
  lemma SlashPrefix(h: string, p: string)
    requires '/' !in p
    ensures StartsWith(h + "/", p) ==> StartsWith(h, p)
  {
    var t := h + "/";
    if StartsWith(t, p) {
      assert t[|h|] == '/';
      assert |p| <= |h|;
      assert h[..|p|] == t[..|p|];
    }
  }

  /** An external href is kept as it is, with the icon exactly when `clean` is not set. */
  lemma RenderExternal(h: string, children: Option<string>, clean: bool, propsClass: Option<string>,
                       cn: (string, Option<string>) -> string)
    requires h != "" && (StartsWith(h, "http") || StartsWith(h, "mailto"))
    ensures Render(Some(h), children, clean, propsClass, cn) == External(h, ClassName(clean, propsClass, cn), !clean, children)
  {
  }

  /** The external test comes before the anchor test, yet no href passes both:
      they start with different characters. */
  lemma ExternalNotAnchor(h: string)
    requires IsExternal(h)
    ensures !IsAnchor(h)
  {
    HttpsIsHttp(h);
    assert h[0] == 'h' || h[0] == 'm';
  }

  /** An href starting with "#" is passed through unchanged as an anchor. */
  lemma RenderAnchor(h: string, children: Option<string>, clean: bool, propsClass: Option<string>,
                     cn: (string, Option<string>) -> string)
    requires StartsWith(h, "#")
    ensures Render(Some(h), children, clean, propsClass, cn) == Anchor(h, ClassName(clean, propsClass, cn), children)
  {
    assert h[0] == '#';
    if IsExternal(h) {
      ExternalNotAnchor(h);
    }
  }

  /** Every other href becomes an internal route ending in "/", the href itself or
      the href with a "/" added, shown as its own text without children. */
  lemma RenderInternal(h: string, children: Option<string>, clean: bool, propsClass: Option<string>,
                       cn: (string, Option<string>) -> string)
    requires h != "" && !IsExternal(h) && !IsAnchor(h)
    ensures var r := Render(Some(h), children, clean, propsClass, cn);
      && r.Internal?
      && EndsWith(r.to, "/") && (r.to == h || r.to == h + "/")
      && (EndsWith(h, "/") ==> r.to == h)
      && (children.None? ==> r.text == r.to)
      && (children.Some? ==> r.text == children.value)
      && Render(Some(r.to), children, clean, propsClass, cn) == r
  {
    var t := WithTrailingSlash(h);
    assert t[0] == h[0];
    HttpsIsHttp(t);
    SlashPrefix(h, "http");
    SlashPrefix(h, "mailto");
  }

  /** Which of the four cases an href falls in, tested in order. */
  datatype Case = InvalidCase | ExternalCase | AnchorCase | InternalCase

  function CaseOf(href: Option<string>): Case {
    if Missing(href) then InvalidCase
    else if IsExternal(href.value) then ExternalCase
    else if IsAnchor(href.value) then AnchorCase
    else InternalCase
  }

  /** Exactly one case applies: the rendered link is of the kind its case names,
      each case's own condition holds, and no later case's condition decides it. */
  lemma ExactlyOneCase(href: Option<string>, children: Option<string>, clean: bool, propsClass: Option<string>,
                       cn: (string, Option<string>) -> string)
    ensures var r := Render(href, children, clean, propsClass, cn);
      match CaseOf(href)
      case InvalidCase => Missing(href) && r.Invalid?
      case ExternalCase => !Missing(href) && IsExternal(href.value) && !IsAnchor(href.value) && r.External?
      case AnchorCase => !Missing(href) && !IsExternal(href.value) && IsAnchor(href.value) && r.Anchor?
      case InternalCase => !Missing(href) && !IsExternal(href.value) && !IsAnchor(href.value) && r.Internal?
  {
    if !Missing(href) && IsExternal(href.value) {
      ExternalNotAnchor(href.value);
    }
  }
}
