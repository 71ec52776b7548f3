/**
 * The page controller: the state the script's event handlers change in place
 * (classes, attributes and text of page elements), held as fields, with one method
 * per handler. Scroll offsets, the picked date and the delivery outcome come in as
 * parameters.
 */
module Page {
  import opened Wrappers
  import opened Validators
  import opened Form
  import opened Scroll
  import Menu

  const BusyLabel := "Enviando..."
  const FixErrorsMessage := "Por favor, corrige los errores en el formulario"
  const SentMessage := "¡Reserva enviada con éxito! Te contactaremos pronto para confirmar."
  const FailedMessage := "Ha ocurrido un error. Por favor, intenta de nuevo o contáctanos directamente."

  class PageController {
    /** The navbar's `scrolled` class. */
    var navbarScrolled: bool
    /** The scroll-to-top button's `visible` class. */
    var scrollTopVisible: bool

    /** The menu toggle's and the menu's `active` classes, and the toggle's `aria-expanded`. */
    var toggleActive: bool
    var menuActive: bool
    var ariaExpanded: string

    /** The `href` of each `.nav-link`, in document order, and its `active` class. */
    const hrefs: seq<string>
    var linkActive: seq<bool>
    /** The `section[id]` elements in document order. */
    const sections: seq<Section>

    /** The form controls present in the page, by id. */
    var controls: map<string, Control>
    /** The text of each field's error element (`<name>Error`) that is present, by field name. */
    var errorSlots: map<string, string>
    /** The submit button's text and `disabled` property. */
    var buttonLabel: string
    var buttonDisabled: bool
    /** The button text saved by a submission that is waiting for delivery. */
    var savedLabel: string
    /** A submission is suspended, waiting for the delivery step. */
    var sending: bool
    /** The form message banner: its text, class name and whether it is displayed. */
    var bannerText: string
    var bannerClass: string
    var bannerShown: bool

    ghost predicate Valid()
      reads this
    {
      |linkActive| == |hrefs|
    }

    function MenuState(): Menu.MenuState
      reads this
    {
      Menu.MenuState(toggleActive, menuActive, ariaExpanded)
    }

    /** A freshly loaded page, scrolled to the top, with the menu closed and no submission running. */
    constructor (hrefs: seq<string>, linkActive: seq<bool>, sections: seq<Section>,
                 controls: map<string, Control>, errorSlots: map<string, string>, buttonLabel: string)
      requires |linkActive| == |hrefs|
      ensures Valid()
      ensures this.hrefs == hrefs && this.linkActive == linkActive && this.sections == sections
      ensures this.controls == controls && this.errorSlots == errorSlots
      ensures this.buttonLabel == buttonLabel && !buttonDisabled && !sending && !bannerShown
      ensures !navbarScrolled && !scrollTopVisible
      ensures MenuState() == Menu.MenuState(false, false, "false")
    {
      this.hrefs, this.linkActive, this.sections := hrefs, linkActive, sections;
      this.controls, this.errorSlots := controls, errorSlots;
      this.buttonLabel, buttonDisabled, savedLabel, sending := buttonLabel, false, buttonLabel, false;
      bannerText, bannerClass, bannerShown := "", "form-message", false;
      navbarScrolled, scrollTopVisible := false, false;
      toggleActive, menuActive, ariaExpanded := false, false, "false";
    }

    /** Navbar scroll effect: `scrolled` exactly past 100 pixels. */
    method UpdateNavbar(y: int)
      modifies this`navbarScrolled
      ensures navbarScrolled <==> y > 100
    {
      if y > NavbarThreshold {
        navbarScrolled := true;
      } else {
        navbarScrolled := false;
      }
    }

    /** Scroll-to-top button: visible exactly past 300 pixels. */
    method UpdateScrollTop(y: int)
      modifies this`scrollTopVisible
      ensures scrollTopVisible <==> y > 300
    {
      if y > ScrollTopThreshold {
        scrollTopVisible := true;
      } else {
        scrollTopVisible := false;
      }
    }

    /**
     * Active-link highlighting: each section whose range holds `y` clears every link and
     * then marks its own, so the last such section wins.
     */
    method HighlightNavLink(y: int)
      requires Valid()
      modifies this`linkActive
      ensures Valid()
      ensures linkActive == Highlighted(old(linkActive), hrefs, sections, y)
    {
      var i := 0;
      while i < |sections|
        invariant 0 <= i <= |sections|
        invariant |linkActive| == |hrefs|
        invariant linkActive == Highlighted(old(linkActive), hrefs, sections[..i], y)
      {
        var section := sections[i];
        var navLink := LinkFor(hrefs, section.id);
        assert sections[..i + 1][..i] == sections[..i];
        if Covers(section, y) {
          var k := 0;
          while k < |linkActive|
            invariant 0 <= k <= |linkActive| == |hrefs|
            invariant forall j :: 0 <= j < k ==> !linkActive[j]
          {
            linkActive := linkActive[k := false];
            k := k + 1;
          }
          if navLink.Some? {
            linkActive := linkActive[navLink.value := true];
          }
          assert linkActive == OnlyActive(|hrefs|, navLink);
        }
        i := i + 1;
      }
      assert sections[..i] == sections;
    }

    /** The three scroll listeners, in the order they are registered. */
    method OnScroll(y: int)
      requires Valid()
      modifies this`navbarScrolled, this`scrollTopVisible, this`linkActive
      ensures Valid()
      ensures navbarScrolled == NavbarScrolled(y) && scrollTopVisible == ScrollTopVisible(y)
      ensures linkActive == Highlighted(old(linkActive), hrefs, sections, y)
    {
      UpdateNavbar(y);
      UpdateScrollTop(y);
      HighlightNavLink(y);
    }

    /** A click on the menu toggle. */
    method ClickToggle()
      modifies this`toggleActive, this`menuActive, this`ariaExpanded
      ensures MenuState() == Menu.Toggle(old(MenuState()))
    {
      toggleActive := !toggleActive;
      menuActive := !menuActive;
      ariaExpanded := if toggleActive then "true" else "false";
    }

    /** A click on a navigation link. */
    method ClickNavLink()
      modifies this`toggleActive, this`menuActive, this`ariaExpanded
      ensures MenuState() == Menu.Close(old(MenuState()))
    {
      toggleActive := false;
      menuActive := false;
      ariaExpanded := "false";
    }

    /**
     * `validateField`: runs the field's validator (none, for a name the table lacks), writes its
     * message into the field's error element if there is one, and reports whether it was empty.
     */
    method ValidateField(name: string, value: string, cal: Calendar) returns (ok: bool)
      modifies this`errorSlots
      ensures ok <==> Message(name, value, cal) == ""
      ensures ok <==> Acceptable(name, value, cal)
      ensures name !in FieldOrder ==> ok
      ensures errorSlots == if name in old(errorSlots) then old(errorSlots)[name := Message(name, value, cal)]
                            else old(errorSlots)
    {
      MessageMeaning(name, value, cal);
      var error := Message(name, value, cal);
      if name in errorSlots {
        errorSlots := errorSlots[name := error];
      }
      ok := error == "";
    }

    /** Leaving a field of the table re-validates it; its `error` class is left as it is. */
    method Blur(name: string, cal: Calendar)
      requires name in controls
      modifies this`errorSlots
      ensures errorSlots == if name in FieldOrder && name in old(errorSlots)
                            then old(errorSlots)[name := Message(name, controls[name].value, cal)]
                            else old(errorSlots)
    {
      if name in FieldOrder {
        var _ := ValidateField(name, controls[name].value, cal);
      }
    }

    /** Typing into a field sets its value; a field of the table that carries `error` is re-validated. */
    method Input(name: string, value: string, cal: Calendar)
      requires name in controls
      modifies this`controls, this`errorSlots
      ensures controls == old(controls)[name := old(controls)[name].(value := value)]
      ensures errorSlots == if name in FieldOrder && old(controls)[name].error && name in old(errorSlots)
                            then old(errorSlots)[name := Message(name, value, cal)]
                            else old(errorSlots)
    {
      controls := controls[name := controls[name].(value := value)];
      if name in FieldOrder && controls[name].error {
        var _ := ValidateField(name, value, cal);
      }
    }

    /** `showMessage`, without the timer that hides the banner again. */
    method ShowMessage(message: string, kind: string)
      modifies this`bannerText, this`bannerClass, this`bannerShown
      ensures bannerText == message && bannerClass == "form-message " + kind && bannerShown
    {
      bannerText := message;
      bannerClass := "form-message " + kind;
      bannerShown := true;
    }

    /**
     * The submit handler's callback for one key: a present field is validated and gets the
     * `error` class exactly when it is rejected; a missing one is skipped and counts as valid.
     */
    method MarkField(fieldName: string, cal: Calendar) returns (ok: bool)
      modifies this`controls, this`errorSlots
      ensures ok == AcceptedOne(old(controls), fieldName, cal)
      ensures controls == MarkOne(old(controls), fieldName, cal)
      ensures errorSlots == RecordOne(old(errorSlots), old(controls), fieldName, cal)
    {
      ok := true;
      if fieldName in controls {
        var field := controls[fieldName];
        ok := ValidateField(fieldName, field.value, cal);
        controls := controls[fieldName := field.(error := !ok)];
      }
    }

    /**
     * The submit handler's pass over the table, for the keys `names` in order: each field
     * that is present is validated and gets the `error` class exactly when it is rejected.
     */
    method ValidateAll(names: seq<string>, cal: Calendar) returns (isValid: bool)
      requires Distinct(names)
      modifies this`controls, this`errorSlots
      ensures isValid == AllAccepted(old(controls), names, cal)
      ensures controls == Marked(old(controls), names, cal)
      ensures errorSlots == Recorded(old(errorSlots), old(controls), names, cal)
    {
      isValid := true;
      var i := 0;
      while i < |names|
        invariant 0 <= i <= |names|
        invariant isValid == AllAccepted(old(controls), names[..i], cal)
        invariant controls == Marked(old(controls), names[..i], cal)
        invariant errorSlots == Recorded(old(errorSlots), old(controls), names[..i], cal)
      {
        PassStep(old(controls), old(errorSlots), names, i, cal);
        var ok := MarkField(names[i], cal);
        isValid := isValid && ok;
        i := i + 1;
      }
      assert names[..i] == names;
    }

    /**
     * The submit handler up to the delivery step: validate and mark the fields; on any
     * failure show the error banner and stop, else save the button's text, show the busy
     * text and disable the button.
     */
    method BeginSubmit(cal: Calendar) returns (proceed: bool)
      requires !sending
      modifies this`controls, this`errorSlots, this`buttonLabel, this`buttonDisabled, this`savedLabel,
               this`sending, this`bannerText, this`bannerClass, this`bannerShown
      ensures proceed == AllAccepted(old(controls), FieldOrder, cal)
      ensures controls == Marked(old(controls), FieldOrder, cal)
      ensures errorSlots == Recorded(old(errorSlots), old(controls), FieldOrder, cal)
      ensures !proceed ==> && bannerText == FixErrorsMessage && bannerClass == "form-message error" && bannerShown
                           && buttonLabel == old(buttonLabel) && buttonDisabled == old(buttonDisabled)
                           && savedLabel == old(savedLabel) && !sending
      ensures proceed ==> && savedLabel == old(buttonLabel) && buttonLabel == BusyLabel && buttonDisabled && sending
                          && bannerText == old(bannerText) && bannerClass == old(bannerClass)
                          && bannerShown == old(bannerShown)
    {
      FieldOrderDistinct();
      var isValid := ValidateAll(FieldOrder, cal);
      if !isValid {
        ShowMessage(FixErrorsMessage, "error");
        return false;
      }
      savedLabel := buttonLabel;
      buttonLabel := BusyLabel;
      buttonDisabled := true;
      sending := true;
      proceed := true;
    }

    /**
     * The submit handler after the delivery step: on success show the success banner and
     * reset the form, on failure show the failure banner; in both cases restore the
     * button's text and enable it.
     */
    method FinishSubmit(delivered: bool)
      requires sending
      modifies this`controls, this`buttonLabel, this`buttonDisabled, this`sending,
               this`bannerText, this`bannerClass, this`bannerShown
      ensures buttonLabel == savedLabel && !buttonDisabled && !sending && bannerShown
      ensures delivered ==> bannerText == SentMessage && bannerClass == "form-message success"
                            && controls == Reset(old(controls))
      ensures !delivered ==> bannerText == FailedMessage && bannerClass == "form-message error"
                             && controls == old(controls)
    {
      if delivered {
        ShowMessage(SentMessage, "success");
        controls := Reset(controls);
      } else {
        ShowMessage(FailedMessage, "error");
      }
      buttonLabel := savedLabel;
      buttonDisabled := false;
      sending := false;
    }

    /** A whole submission, from the submit event to the end of the delivery step. */
    method Submit(cal: Calendar, delivered: bool)
      requires !sending
      modifies this`controls, this`errorSlots, this`buttonLabel, this`buttonDisabled, this`savedLabel,
               this`sending, this`bannerText, this`bannerClass, this`bannerShown
      ensures !sending && bannerShown
      ensures errorSlots == Recorded(old(errorSlots), old(controls), FieldOrder, cal)
      ensures !AllAccepted(old(controls), FieldOrder, cal) ==>
                && bannerText == FixErrorsMessage && bannerClass == "form-message error"
                && controls == Marked(old(controls), FieldOrder, cal)
                && buttonLabel == old(buttonLabel) && buttonDisabled == old(buttonDisabled)
      ensures AllAccepted(old(controls), FieldOrder, cal) ==>
                && buttonLabel == old(buttonLabel) && !buttonDisabled
                && (delivered ==> bannerText == SentMessage && bannerClass == "form-message success"
                                  && controls == Reset(Marked(old(controls), FieldOrder, cal)))
                && (!delivered ==> bannerText == FailedMessage && bannerClass == "form-message error"
                                   && controls == Marked(old(controls), FieldOrder, cal))
    {
      var proceed := BeginSubmit(cal);
      if proceed {
        FinishSubmit(delivered);
      }
    }
  }
}
