/**
 * The diary entry stored in the local object store (keyPath 'id').
 *
 * Fields the JavaScript object may lack are normalised: an absent `date` or
 * `name` is the empty string, an absent `createdAt` is 0, and an absent (falsy)
 * `id` is the empty string. These are the values the sort (`|| ''`, `|| 0`),
 * the CSV export (`?? ''`) and the id test (`!r.id`) read; the month view's
 * string interpolation reads an absent field as "undefined" instead.
 */
module Records {
  /** One photo: the remote original's URL and the inline thumbnail data. */
  datatype Photo = Photo(url: string, thumb: string)

  datatype Record = Record(
    id: string,
    date: string,
    name: string,
    photos: seq<Photo>,
    createdAt: int)
}
