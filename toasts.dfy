/** The toast notifier of the page script: the switch that picks a toast's
    colour and icon from its type, the `.toast-container` element as the list
    of toast elements it holds, `showToast` appending one and the `hidden`
    handler removing that one again. */
module Toasts {

  /** The Bootstrap background class and the Bootstrap Icons class of a toast. */
  datatype ToastStyle = ToastStyle(bgClass: string, icon: string)

  const InfoStyle := ToastStyle("bg-primary", "bi-info-circle")
  const SuccessStyle := ToastStyle("bg-success", "bi-check-circle")
  const WarningStyle := ToastStyle("bg-warning", "bi-exclamation-triangle")
  const ErrorStyle := ToastStyle("bg-danger", "bi-x-circle")

  /** The `switch(type)` of `showToast`: three named types, and every other
      string keeps the info styling the variables start with. */
  function StyleOf(kind: string): (r: ToastStyle)
    ensures r == SuccessStyle <==> kind == "success"
    ensures r == WarningStyle <==> kind == "warning"
    ensures r == ErrorStyle <==> kind == "error"
    ensures r == InfoStyle <==> kind != "success" && kind != "warning" && kind != "error"
  {
    if kind == "success" then SuccessStyle
    else if kind == "warning" then WarningStyle
    else if kind == "error" then ErrorStyle
    else InfoStyle
  }

  /** The class attribute given to a new toast element. */
  function ToastClassName(bgClass: string): string
  {
    "toast align-items-center text-white " + bgClass + " border-0"
  }

  /** The background class sits in the class attribute as a token of its own. */
  lemma ClassNameHasBackground(bgClass: string)
    ensures var c := ToastClassName(bgClass);
      c[|c| - |bgClass| - 9..|c| - 9] == bgClass &&
      c[|c| - |bgClass| - 10] == ' ' && c[|c| - 9] == ' '
  {
    var prefix := "toast align-items-center text-white ";
    var c := ToastClassName(bgClass);
    assert c == prefix + bgClass + " border-0";
    assert |c| == |prefix| + |bgClass| + 9;
    assert c[|prefix|..|prefix| + |bgClass|] == bgClass;
    assert c[|prefix| - 1] == prefix[|prefix| - 1];
  }

  /** A toast element. What `showToast` puts in it never changes afterwards,
      so the fields are constants; the element's identity is the object's. */
  class ToastElement {
    const title: string
    const message: string
    const className: string
    const icon: string

    constructor (title: string, message: string, style: ToastStyle)
      ensures this.title == title && this.message == message
      ensures className == ToastClassName(style.bgClass) && icon == style.icon
    {
      this.title := title;
      this.message := message;
      this.className := ToastClassName(style.bgClass);
      this.icon := style.icon;
    }
  }

  /** No element occurs twice: a DOM node has one place among its siblings. */
  predicate Distinct<T(==)>(s: seq<T>)
  {
    forall i, j :: 0 <= i < j < |s| ==> s[i] != s[j]
  }

  /** `s` with `x` taken out (`x.remove()` on a child of the container). */
  function Without<T(==)>(s: seq<T>, x: T): (r: seq<T>)
    ensures forall i :: 0 <= i < |r| ==> r[i] != x && r[i] in s
    ensures forall i :: 0 <= i < |s| && s[i] != x ==> s[i] in r
    ensures |r| <= |s|
  {
    if s == [] then []
    else if s[0] == x then Without(s[1..], x)
    else [s[0]] + Without(s[1..], x)
  }

  /** Removing an element that is not there leaves the list as it is. */
  lemma {:induction false} WithoutAbsent<T>(s: seq<T>, x: T)
    requires x !in s
    ensures Without(s, x) == s
  {
    if s != [] {
      WithoutAbsent(s[1..], x);
      assert s == [s[0]] + s[1..];
    }
  }

  /** The tail of a list without repetitions has none either, and does not
      hold the head. */
  lemma DistinctTail<T>(s: seq<T>)
    requires Distinct(s) && s != []
    ensures Distinct(s[1..]) && s[0] !in s[1..]
  {
    var t := s[1..];
    forall i, j | 0 <= i < j < |t|
      ensures t[i] != t[j]
    {
      assert t[i] == s[i + 1] && t[j] == s[j + 1];
    }
    forall j | 0 <= j < |t|
      ensures t[j] != s[0]
    {
      assert t[j] == s[j + 1];
    }
  }

  /** Removing the element at position `k` of a list without repetitions
      closes the gap and keeps every other element in its order. */
  lemma {:induction false} WithoutAt<T>(s: seq<T>, k: nat)
    requires Distinct(s) && k < |s|
    ensures Without(s, s[k]) == s[..k] + s[k + 1..]
  {
    var t := s[1..];
    DistinctTail(s);
    if k == 0 {
      WithoutAbsent(t, s[0]);
    } else {
      var x := s[k];
      assert s[0] != x;
      assert Without(s, x) == [s[0]] + Without(t, x);
      assert t[k - 1] == x;
      WithoutAt(t, k - 1);
      assert t[..k - 1] == s[1..k];
      assert t[k..] == s[k + 1..];
      assert s[..k] == [s[0]] + s[1..k];
    }
  }

  /** What the `hidden` handler undoes: removing the toast just appended gives
      back the container's earlier children. */
  lemma {:induction false} ShowThenHide<T>(s: seq<T>, t: T)
    requires t !in s
    ensures Without(s + [t], t) == s
  {
    if s == [] {
      assert [] + [t] == [t];
    } else {
      assert (s + [t])[1..] == s[1..] + [t];
      ShowThenHide(s[1..], t);
      assert s == [s[0]] + s[1..];
    }
  }

  /** The `.toast-container` element: its children, in document order. */
  class ToastContainer {
    var children: seq<ToastElement>

    ghost predicate Valid()
      reads this
    {
      Distinct(children)
    }

    constructor ()
      ensures Valid() && children == []
    {
      children := [];
    }

    /** Where `t` sits among the children, or -1 when it is not one of them. */
    method IndexOf(t: ToastElement) returns (k: int)
      ensures -1 <= k < |children|
      ensures k == -1 <==> t !in children
      ensures 0 <= k ==> children[k] == t && t !in children[..k]
    {
      k := 0;
      while k < |children|
        invariant 0 <= k <= |children|
        invariant t !in children[..k]
      {
        if children[k] == t {
          return;
        }
        assert children[..k + 1] == children[..k] + [children[k]];
        k := k + 1;
      }
      assert children[..k] == children;
      k := -1;
    }

    /** `appendChild` of a new element: it goes last. */
    method Append(t: ToastElement)
      requires Valid() && t !in children
      modifies this
      ensures Valid()
      ensures children == old(children) + [t]
    {
      children := children + [t];
    }

    /** `t.remove()`: `t` leaves the container and the other children stay,
        in order; an element that is no longer there is left alone. */
    method Remove(t: ToastElement)
      requires Valid()
      modifies this
      ensures Valid()
      ensures children == Without(old(children), t)
    {
      var k := IndexOf(t);
      if k == -1 {
        WithoutAbsent(children, t);
      } else {
        WithoutAt(children, k);
        children := children[..k] + children[k + 1..];
      }
    }
  }

  /** `showToast(title, message, type)`. Without a container (the query found
      nothing) it does nothing and gives no element back. Otherwise it appends
      one new toast styled by `StyleOf(kind)` after the children already there. */
  method ShowToast(container: ToastContainer?, title: string, message: string, kind: string)
    returns (shown: ToastElement?)
    requires container != null ==> container.Valid()
    modifies container
    ensures container == null ==> shown == null
    ensures container != null ==>
      container.Valid() && shown != null && fresh(shown) &&
      container.children == old(container.children) + [shown] &&
      shown.title == title && shown.message == message &&
      shown.className == ToastClassName(StyleOf(kind).bgClass) &&
      shown.icon == StyleOf(kind).icon
  {
    if container == null {
      return null;
    }
    var style := StyleOf(kind);
    shown := new ToastElement(title, message, style);
    container.Append(shown);
  }

  /** The toast's life in the container: shown, then removed by its `hidden`
      handler; the container ends with the children it started with. */
  method ShowThenHidden(container: ToastContainer, title: string, message: string, kind: string)
    requires container.Valid()
    modifies container
    ensures container.Valid() && container.children == old(container.children)
  {
    var shown := ShowToast(container, title, message, kind);
    var t: ToastElement := shown;
    ShowThenHide<ToastElement>(old(container.children), t);
    container.Remove(t);
  }

  const WelcomeTitle := "Bienvenido/a"
  const WelcomeMessage := "Esta información tiene como objetivo educar y concienciar. Recuerda buscar ayuda profesional si la necesitas."
  const InfoTitle := "Información"
  const InfoMessage := "Has consultado información adicional sobre este tema."

  /** `showWelcomeToast`, run once by the two-second timer. */
  method ShowWelcomeToast(container: ToastContainer?) returns (shown: ToastElement?)
    requires container != null ==> container.Valid()
    modifies container
    ensures container == null ==> shown == null
    ensures container != null ==>
      container.Valid() && shown != null && fresh(shown) &&
      container.children == old(container.children) + [shown] &&
      shown.title == WelcomeTitle && shown.message == WelcomeMessage &&
      shown.className == ToastClassName(InfoStyle.bgClass) && shown.icon == InfoStyle.icon
  {
    shown := ShowToast(container, WelcomeTitle, WelcomeMessage, "info");
  }

  /** The click listener on every `.btn-info` button. */
  method OnInfoButtonClick(container: ToastContainer?) returns (shown: ToastElement?)
    requires container != null ==> container.Valid()
    modifies container
    ensures container == null ==> shown == null
    ensures container != null ==>
      container.Valid() && shown != null && fresh(shown) &&
      container.children == old(container.children) + [shown] &&
      shown.title == InfoTitle && shown.message == InfoMessage &&
      shown.className == ToastClassName(InfoStyle.bgClass) && shown.icon == InfoStyle.icon
  {
    shown := ShowToast(container, InfoTitle, InfoMessage, "info");
  }
}
