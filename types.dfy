/**
 * The server's shared vocabulary: the two enumerations, the records stored in
 * the `qr_codes`, `status_history` and `users` tables, and the JWT payload.
 * Timestamps are logical clock values; record ids are natural numbers standing
 * for the UUIDs the database generates.
 */
module Types {

  datatype Option<T> = None | Some(value: T)

  /** A store operation that either returns a value or fails the way a rejected SQL statement does. */
  datatype Result<T> = Ok(value: T) | Err(error: string)

  datatype UserRole = User | Employee | Admin

  /** The lifecycle of a QR code: inactive, then active, then completed. */
  datatype QRCodeStatus = Inactive | Active | Completed

  /** The string value each status is stored and sent as. */
  function StatusName(s: QRCodeStatus): string {
    match s
    case Inactive => "inactive"
    case Active => "active"
    case Completed => "completed"
  }

  /** The string value each role is stored and sent as. */
  function RoleName(r: UserRole): string {
    match r
    case User => "user"
    case Employee => "employee"
    case Admin => "admin"
  }

  /** User ids are UUIDs generated by the database, so never the empty string. */
  type UserId = s: string | s != [] witness "u"

  /** A row of `qr_codes`; `userId` is unset while the code is inactive and set once it is activated. */
  datatype QRCode = QRCode(
    id: nat,
    code: string,
    status: QRCodeStatus,
    userId: Option<UserId>,
    createdAt: nat,
    updatedAt: nat)

  /** A row of `status_history`: one committed status change. */
  datatype StatusHistory = StatusHistory(
    id: nat,
    qrCodeId: nat,
    fromStatus: QRCodeStatus,
    toStatus: QRCodeStatus,
    changedBy: UserId,
    changedAt: nat,
    notes: Option<string>)

  /** A row of `users`; `password` holds the bcrypt hash. */
  datatype UserRecord = UserRecord(
    id: UserId,
    email: string,
    password: string,
    firstName: string,
    lastName: string,
    role: UserRole)

  datatype JWTPayload = JWTPayload(userId: UserId, email: string, role: UserRole)
}
