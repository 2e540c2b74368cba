/** The submit listener on `#contactModal form`: the browser's own submission
    is cancelled, a success toast is shown, the dialog's Bootstrap instance is
    looked up and hidden, and the form is reset. Nothing is sent anywhere. */
module ContactForm {
  import opened Toasts

  const SentTitle := "Mensaje Enviado"
  const SentMessage := "Hemos recibido tu mensaje. Un especialista se pondrá en contacto contigo pronto."

  /** The form's controls: their current values and the values `reset()`
      restores. */
  class Form {
    var values: seq<string>
    const defaults: seq<string>

    constructor (defaults: seq<string>)
      ensures this.defaults == defaults && values == defaults
    {
      this.defaults := defaults;
      values := defaults;
    }

    /** `form.reset()` */
    method Reset()
      modifies this
      ensures values == defaults
    {
      values := defaults;
    }
  }

  /** How the handler ends. `bootstrap.Modal.getInstance` gives null when the
      dialog was never initialised; calling `hide()` on it then throws, and
      the handler stops before the form is reset. */
  datatype SubmitOutcome = DialogClosed | NoDialogInstance

  /** One submit event. `dialogInstance` says whether the dialog's Bootstrap
      instance exists; the instance's own `hide()` is the library's. */
  method OnContactSubmit(container: ToastContainer?, form: Form, dialogInstance: bool)
    returns (outcome: SubmitOutcome, shown: ToastElement?)
    requires container != null ==> container.Valid()
    modifies container, form
    ensures container == null ==> shown == null
    ensures container != null ==>
      container.Valid() && shown != null && fresh(shown) &&
      container.children == old(container.children) + [shown] &&
      shown.title == SentTitle && shown.message == SentMessage &&
      shown.className == ToastClassName(SuccessStyle.bgClass) && shown.icon == SuccessStyle.icon
    ensures dialogInstance ==> outcome == DialogClosed && form.values == form.defaults
    ensures !dialogInstance ==> outcome == NoDialogInstance && form.values == old(form.values)
  {
    shown := ShowToast(container, SentTitle, SentMessage, "success");
    if !dialogInstance {
      return NoDialogInstance, shown;
    }
    form.Reset();
    outcome := DialogClosed;
  }
}
