/**
 * The three ways the front ends obtain a `SlideGenerator`: for an existing
 * presentation, for a copy of one, or for a new presentation. The
 * generator itself is not part of this model; only the choice of
 * constructor and its arguments is.
 */
module SlideGeneratorApi {

  /** A constructor call, with its arguments after the OAuth client. */
  datatype GeneratorCall<T> =
    | ForPresentation(presentationId: T)
    | CopyPresentation(title: T, copyId: T)
    | NewPresentation(title: T)
}
