/**
 * The `/recommend` handler (backend/index.ts:36-45, 63-139, 150) around its
 * two pure parts: reject a request without a medical keyword, otherwise
 * format the assistant's reply. The reply itself comes from a network call,
 * so it is a parameter here.
 */
module Recommend {

  import opened Text
  import opened Validator
  import opened Formatter

  /** A field of the JSON body: absent, `null`, or a string. */
  datatype Field = Missing | Null | Str(value: string)

  /** What `Array.prototype.join` writes for a field: nothing for `undefined` and `null`. */
  function JoinPart(f: Field): string
  {
    match f
    case Missing => ""
    case Null => ""
    case Str(v) => v
  }

  /** What a template literal writes for a field. */
  function Interpolate(f: Field): string
  {
    match f
    case Missing => "undefined"
    case Null => "null"
    case Str(v) => v
  }

  /** The fields of `req.body` the handler reads (line 37); `edad` and `genero` only reach the prompt and the database. */
  datatype Request = Request(nombre: Field, sintomas: Field, antecedentes: Field)

  datatype Response = Rejected(status: nat, error: string) | Answered(recomendaciones: string)

  /** The error text of line 44. */
  const InvalidInputError: string :=
    "Por favor, proporcione informaci\U{00F3}n relacionada con s\U{00ED}ntomas o antecedentes m\U{00E9}dicos."

  predicate Accepted(req: Request)
  {
    IsValid(JoinPart(req.nombre), JoinPart(req.sintomas), JoinPart(req.antecedentes))
  }

  /** The handler for a request and the assistant's `reply` to it (lines 36-45, 63-139, 150). */
  function Handle(req: Request, reply: string): (r: Response)
    ensures r.Rejected? <==> !Accepted(req)
    ensures r.Rejected? ==> r.status == 400 && r.error == InvalidInputError
  {
    if !Accepted(req) then Rejected(400, InvalidInputError)
    else Answered(Format(reply, Interpolate(req.nombre)))
  }

  /**
   * A request is answered exactly when one of its fields that is present,
   * lower-cased, contains a keyword; a missing or `null` field never helps.
   */
  lemma AnsweredIffFieldHasKeyword(req: Request, reply: string)
    ensures Handle(req, reply).Answered?
            <==> exists k :: 0 <= k < |Keywords|
                   && ((req.nombre.Str? && FieldHas(req.nombre.value, k))
                       || (req.sintomas.Str? && FieldHas(req.sintomas.value, k))
                       || (req.antecedentes.Str? && FieldHas(req.antecedentes.value, k)))
  {
    ValidIffSomeFieldHasKeyword(JoinPart(req.nombre), JoinPart(req.sintomas), JoinPart(req.antecedentes));
    forall k | 0 <= k < |Keywords|
      ensures !FieldHas("", k)
    {
      assert Lower("") == "";
      assert !Includes("", Keywords[k]);
    }
  }

  /**
   * Once accepted, the page depends only on the reply and the name: the
   * symptoms and history decide acceptance and nothing else.
   */
  lemma AnswerIgnoresSymptoms(req: Request, req': Request, reply: string)
    requires Accepted(req) && Accepted(req') && req.nombre == req'.nombre
    ensures Handle(req, reply) == Handle(req', reply)
  {
  }

  /** An accepted request with a blank reply still yields a page, with `undefined` paragraphs. */
  lemma BlankReplyAnswer(req: Request, reply: string)
    requires Accepted(req) && AllBlank(SplitLines(reply))
    ensures Handle(req, reply) == Answered(Page(Interpolate(req.nombre), "undefined", "", "undefined"))
  {
    BlankReplyFormat(reply, Interpolate(req.nombre));
  }
}
